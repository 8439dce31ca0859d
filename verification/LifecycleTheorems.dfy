/**
 * What every run of the publication lifecycle keeps, when publishing and replacing can fail,
 * and how future coverage moves.
 */
module LifecycleTheorems {
  import opened Common
  import opened Sorting
  import opened Lifecycle

  // ------------------------------------------------------------ invariant

  /** The statuses that a version can have while a slot of this status is active. */
  predicate Fits(s: SlotStatus, v: VersionStatus) {
    match s
    case SlotScheduled => v == Scheduled || v == Approved || v == Rejected
    case SlotPublished => v == Published
    case _ => false
  }

  /** An active slot's version exists and has a fitting status. */
  predicate SlotOk(db: Db, i: int) {
    IsActive(db, i) ==>
      && db.slots[i].versionId in db.versions
      && Fits(db.slots[i].status, db.versions[db.slots[i].versionId].status)
  }

  /** Two active slots hold different versions at different places of the calendar. */
  predicate Apart(db: Db, i: int, j: int) {
    IsActive(db, i) && IsActive(db, j) && i != j ==>
      db.slots[i].versionId != db.slots[j].versionId
        && !(db.slots[i].date == db.slots[j].date && db.slots[i].order == db.slots[j].order)
  }

  ghost predicate HasSlot(db: Db, v: string) { exists i: nat :: ActiveFor(db, v, i) }

  predicate OnCalendar(s: VersionStatus) { s == Scheduled || s == Published }

  /** A version belongs to a spot, and holds an active slot once it is on the calendar. */
  ghost predicate VersionOk(db: Db, v: string) {
    v in db.versions ==> db.versions[v].spotId in db.spots && (OnCalendar(db.versions[v].status) ==> HasSlot(db, v))
  }

  predicate SpotOk(db: Db, x: string) {
    x in db.spots && db.spots[x].current.Some? ==>
      db.spots[x].current.value in db.versions && db.versions[db.spots[x].current.value].spotId == x
  }

  /** What every run keeps, whatever it approves. */
  ghost predicate Inv(db: Db) {
    && (forall i :: SlotOk(db, i))
    && (forall i, j :: Apart(db, i, j))
    && (forall v :: VersionOk(db, v))
    && (forall x :: SpotOk(db, x))
  }

  lemma NoCurrentClash(db: Db, v: string)
    requires Inv(db) && v in db.versions
    ensures !CurrentClash(db, db.versions[v].spotId, v)
  {
    forall x | x in db.spots && x != db.versions[v].spotId ensures db.spots[x].current != Some(v) {
      assert SpotOk(db, x);
    }
  }

  /** A scheduled slot whose version went back to approved, or from there to rejected. */
  predicate Stuck(db: Db, i: int) {
    && IsActive(db, i) && db.slots[i].status == SlotScheduled
    && (db.slots[i].versionId in db.versions ==> db.versions[db.slots[i].versionId].status != Scheduled)
  }

  /** Active slots and version statuses match: scheduled with scheduled, published with published. */
  ghost predicate Clean(db: Db) { forall i :: !Stuck(db, i) }

  /** Before approval a version has no active slot. */
  lemma UnapprovedHasNoSlot(db: Db, v: string)
    requires Inv(db) && v in db.versions && db.versions[v].status == Validated
    ensures !HasSlot(db, v)
  {
    forall i: nat ensures !ActiveFor(db, v, i) {
      assert SlotOk(db, i);
    }
  }

  // ------------------------------------------- each operation keeps it

  lemma ImportKeepsInv(db: Db, v: string, spotId: string)
    requires Inv(db)
    ensures Import(db, v, spotId).Ok? && Inv(Import(db, v, spotId).value)
  {
    var next := Import(db, v, spotId).value;
    forall i ensures SlotOk(next, i) { assert SlotOk(db, i); }
    forall i, j ensures Apart(next, i, j) { assert Apart(db, i, j); }
    forall u ensures VersionOk(next, u) {
      assert VersionOk(db, u);
      SameSlots(db, next, u);
    }
    forall x ensures SpotOk(next, x) { assert SpotOk(db, x); }
  }

  lemma SameSlots(db: Db, next: Db, v: string)
    requires db.slots == next.slots
    ensures HasSlot(next, v) <==> HasSlot(db, v)
  {
    forall i: nat ensures ActiveFor(next, v, i) == ActiveFor(db, v, i) {}
  }

  lemma HoldKeepsInv(db: Db, v: string)
    requires Inv(db) && Hold(db, v).Ok?
    ensures Inv(Hold(db, v).value)
  {
    var next := Hold(db, v).value;
    forall i ensures SlotOk(next, i) { assert SlotOk(db, i); }
    forall i, j ensures Apart(next, i, j) { assert Apart(db, i, j); }
    forall u ensures VersionOk(next, u) {
      assert VersionOk(db, u);
      SameSlots(db, next, u);
    }
    forall x ensures SpotOk(next, x) { assert SpotOk(db, x); }
  }

  lemma AttemptsDoNotMatter(db: Db, next: Db)
    requires Inv(db) && next == db.(attempts := next.attempts)
    ensures Inv(next)
  {
    forall i ensures SlotOk(next, i) { assert SlotOk(db, i); }
    forall i, j ensures Apart(next, i, j) { assert Apart(db, i, j); }
    forall u ensures VersionOk(next, u) {
      assert VersionOk(db, u);
      SameSlots(db, next, u);
    }
    forall x ensures SpotOk(next, x) { assert SpotOk(db, x); }
  }

  /** A new slot, at a free place, for a version that leaves the approved state. */
  lemma AppendKeepsInv(db: Db, next: Db, v: string, date: int, order: int)
    requires Inv(db) && v in db.versions && !SlotClash(db, date, order, v)
    requires next == SetStatus(db.(slots := db.slots + [Slot(date, order, v, SlotScheduled)]), v, Scheduled)
    ensures Inv(next)
  {
    var n := |db.slots|;
    forall i: int | 0 <= i < n ensures next.slots[i] == db.slots[i] && (IsActive(next, i) <==> IsActive(db, i)) {}
    forall i ensures SlotOk(next, i) {
      assert SlotOk(db, i);
      if 0 <= i < n && IsActive(db, i) {
        assert db.slots[i].versionId != v;
      }
    }
    forall i, j ensures Apart(next, i, j) {
      assert Apart(db, i, j);
    }
    forall u ensures VersionOk(next, u) {
      assert VersionOk(db, u);
      if u == v {
        assert ActiveFor(next, v, n);
      } else if HasSlot(db, u) {
        var i: nat :| ActiveFor(db, u, i);
        assert ActiveFor(next, u, i);
      }
    }
    forall x ensures SpotOk(next, x) { assert SpotOk(db, x); }
  }

  lemma ScheduleKeepsInv(db: Db, v: string, date: int, order: int)
    requires Inv(db) && Schedule(db, v, date, order).Ok?
    ensures Inv(Schedule(db, v, date, order).value)
  {
    assert VersionOk(db, v);
    AppendKeepsInv(db, Schedule(db, v, date, order).value, v, date, order);
  }

  /** Cancelling every active slot of a version while superseding it. */
  lemma CancelKeepsInv(db: Db, next: Db, v: string)
    requires Inv(db) && v in db.versions
    requires next == SetStatus(db.(slots := CancelAll(db.slots, v)), v, Superseded)
    ensures Inv(next)
  {
    forall i ensures IsActive(next, i) <==> IsActive(db, i) && db.slots[i].versionId != v {}
    forall i ensures IsActive(next, i) ==> next.slots[i] == db.slots[i] {}
    forall i ensures SlotOk(next, i) { assert SlotOk(db, i); }
    forall i, j ensures Apart(next, i, j) { assert Apart(db, i, j); }
    forall u ensures VersionOk(next, u) {
      assert VersionOk(db, u);
      if u != v && HasSlot(db, u) {
        var i: nat :| ActiveFor(db, u, i);
        assert ActiveFor(next, u, i);
      }
    }
    forall x ensures SpotOk(next, x) { assert SpotOk(db, x); }
  }

  lemma RetireKeepsInv(db: Db, v: string)
    requires Inv(db) && v in db.versions
    ensures Inv(Retire(db, v))
  {
    var next := Retire(db, v);
    forall i ensures SlotOk(next, i) { assert SlotOk(db, i); }
    forall i, j ensures Apart(next, i, j) { assert Apart(db, i, j); }
    forall u ensures VersionOk(next, u) {
      assert VersionOk(db, u);
      SameSlots(db, next, u);
    }
    forall x ensures SpotOk(next, x) { assert SpotOk(db, x); }
  }

  /** Quarantine works exactly on published versions, given a reason. */
  lemma QuarantineLaws(db: Db, v: string, blankReason: bool)
    requires Inv(db)
    ensures Quarantine(db, v, blankReason).Ok? <==>
      !blankReason && v in db.versions && db.versions[v].status == Published
    ensures Quarantine(db, v, blankReason).Ok? ==> Inv(Quarantine(db, v, blankReason).value)
  {
    assert VersionOk(db, v);
    if Quarantine(db, v, blankReason).Ok? {
      var db1 := SetStatus(db.(slots := CancelAll(db.slots, v)), v, Superseded);
      CancelKeepsInv(db, db1, v);
      AttemptsDoNotMatter(db1, Invalidate(db1, v, None));
      RetireKeepsInv(Invalidate(db1, v, None), v);
    }
  }

  /** With one active slot per version, cancelling the found one cancels them all. */
  lemma OneSlotPerVersion(db: Db, v: string, i: nat)
    requires Inv(db) && ActiveFor(db, v, i)
    ensures SetSlot(db, i, SlotCancelled).slots == CancelAll(db.slots, v)
  {
    var one := SetSlot(db, i, SlotCancelled).slots;
    forall j: nat | j < |db.slots| ensures one[j] == CancelAll(db.slots, v)[j] {
      assert Apart(db, i, j);
      assert ActiveFor(db, v, j) <==> j == i;
    }
  }

  /** The tables after a replacement, before the new slot is inserted. */
  function Vacated(db: Db, prev: string, next: string, invalidate: bool): Db
    requires prev in db.versions && next in db.versions
  {
    var db1 := SetStatus(db.(slots := CancelAll(db.slots, prev)), prev, Superseded);
    var db2 := if db.versions[prev].spotId != db.versions[next].spotId then Retire(db1, prev) else db1;
    if invalidate then Invalidate(db2, prev, Some(next)) else db2
  }

  lemma VacatedKeepsInv(db: Db, prev: string, next: string, invalidate: bool)
    requires Inv(db) && prev in db.versions && next in db.versions && prev != next
    ensures Inv(Vacated(db, prev, next, invalidate))
    ensures Vacated(db, prev, next, invalidate).slots == CancelAll(db.slots, prev)
    ensures Vacated(db, prev, next, invalidate).versions == SetStatus(db, prev, Superseded).versions
  {
    var db1 := SetStatus(db.(slots := CancelAll(db.slots, prev)), prev, Superseded);
    CancelKeepsInv(db, db1, prev);
    RetireKeepsInv(db1, prev);
    var db2 := if db.versions[prev].spotId != db.versions[next].spotId then Retire(db1, prev) else db1;
    AttemptsDoNotMatter(db2, Invalidate(db2, prev, Some(next)));
  }

  /** The insert of a replacement trips an index exactly when the new version still holds a slot. */
  lemma ReplacementClashes(db: Db, prev: string, next: string, i: nat, invalidate: bool)
    requires Inv(db) && prev in db.versions && next in db.versions && prev != next && ActiveFor(db, prev, i)
    ensures SlotClash(Vacated(db, prev, next, invalidate), db.slots[i].date, db.slots[i].order, next) <==>
      HasSlot(db, next)
  {
    VacatedKeepsInv(db, prev, next, invalidate);
    var mid := Vacated(db, prev, next, invalidate);
    hide Vacated;
    forall j: nat | ActiveFor(db, next, j) ensures ActiveFor(mid, next, j) {
    }
    forall j | IsActive(mid, j)
      ensures mid.slots[j] == db.slots[j]
      ensures !(mid.slots[j].date == db.slots[i].date && mid.slots[j].order == db.slots[i].order)
    {
      assert Apart(db, i, j);
    }
    if SlotClash(mid, db.slots[i].date, db.slots[i].order, next) {
      var j :| 0 <= j < |mid.slots| && IsActive(mid, j) && mid.slots[j].versionId == next;
      assert ActiveFor(db, next, j);
    }
  }

  /**
   * Replacement works exactly for a version on the calendar and an approved other one that holds
   * no slot: it always finds the old slot, and only a slot of the new version can trip its insert.
   */
  lemma ReplaceLaws(db: Db, prev: string, next: string, invalidate: bool)
    requires Inv(db)
    ensures Replace(db, prev, next, invalidate).Ok? <==>
      && prev != next && prev in db.versions && next in db.versions
      && OnCalendar(db.versions[prev].status) && db.versions[next].status == Approved && !HasSlot(db, next)
    ensures Replace(db, prev, next, invalidate).Ok? ==> Inv(Replace(db, prev, next, invalidate).value)
    ensures Replace(db, prev, next, invalidate).Ok? ==>
      var i, mid := FindActive(db, prev, |db.slots|), Vacated(db, prev, next, invalidate);
      && i.Some? && Inv(mid) && !SlotClash(mid, db.slots[i.value].date, db.slots[i.value].order, next)
      && Replace(db, prev, next, invalidate).value == SetStatus(
        mid.(slots := mid.slots + [Slot(db.slots[i.value].date, db.slots[i.value].order, next, SlotScheduled)]),
        next, Scheduled)
  {
    assert VersionOk(db, prev) && VersionOk(db, next);
    if prev != next && prev in db.versions && next in db.versions
      && OnCalendar(db.versions[prev].status) && db.versions[next].status == Approved
    {
      var found := FindActive(db, prev, |db.slots|);
      assert found.Some? by {
        var i: nat :| ActiveFor(db, prev, i);
      }
      var i := found.value;
      OneSlotPerVersion(db, prev, i);
      VacatedKeepsInv(db, prev, next, invalidate);
      ReplacementClashes(db, prev, next, i, invalidate);
      var mid := Vacated(db, prev, next, invalidate);
      assert SetStatus(SetSlot(db, i, SlotCancelled), prev, Superseded)
        == SetStatus(db.(slots := CancelAll(db.slots, prev)), prev, Superseded);
      if !HasSlot(db, next) {
        AppendKeepsInv(mid, Replace(db, prev, next, invalidate).value, next, db.slots[i].date, db.slots[i].order);
      }
    }
  }

  /** Publishing a scheduled slot of a scheduled version cannot hit an invalid transition. */
  lemma PublishOneLaws(db: Db, i: nat)
    requires Inv(db) && i < |db.slots| && db.slots[i].status == SlotScheduled && !Stuck(db, i)
    ensures PublishOne(db, i).Ok? && Inv(PublishOne(db, i).value)
    ensures PublishOne(db, i).value.slots == SetSlot(db, i, SlotPublished).slots
    ensures PublishOne(db, i).value.versions == SetStatus(db, db.slots[i].versionId, Published).versions
    ensures PublishOne(db, i).value.attempts == db.attempts
  {
    assert SlotOk(db, i);
    var v := db.slots[i].versionId;
    assert VersionOk(db, v);
    NoCurrentClash(db, v);
    var next := PublishOne(db, i).value;
    forall j ensures IsActive(next, j) <==> IsActive(db, j) {}
    forall j ensures SlotOk(next, j) {
      assert SlotOk(db, j) && Apart(db, i, j);
    }
    forall j, k ensures Apart(next, j, k) { assert Apart(db, j, k); }
    forall u ensures VersionOk(next, u) {
      assert VersionOk(db, u);
      if HasSlot(db, u) {
        var j: nat :| ActiveFor(db, u, j);
        assert ActiveFor(next, u, j);
      }
    }
    forall x ensures SpotOk(next, x) { assert SpotOk(db, x); }
  }

  /** The versions shown by a list of slots. */
  function VersionsOf(db: Db, ids: seq<nat>): set<string>
    requires forall k :: 0 <= k < |ids| ==> ids[k] < |db.slots|
  {
    set k | 0 <= k < |ids| :: db.slots[ids[k]].versionId
  }

  function PublishedIf(b: bool, v: Version): Version { if b then v.(status := Published) else v }

  /** Exactly these slots and their versions moved from scheduled to published. */
  ghost predicate PublishedBy(db: Db, next: Db, ids: seq<nat>)
    requires forall k :: 0 <= k < |ids| ==> ids[k] < |db.slots|
  {
    && |next.slots| == |db.slots|
    && (forall i: nat :: i < |db.slots| ==>
          next.slots[i] == if i in ids then db.slots[i].(status := SlotPublished) else db.slots[i])
    && next.versions.Keys == db.versions.Keys
    && (forall v :: v in db.versions ==> next.versions[v] == PublishedIf(v in VersionsOf(db, ids), db.versions[v]))
    && next.attempts == db.attempts
  }

  /** A slot that publication can take. */
  predicate Ready(db: Db, i: int) {
    0 <= i < |db.slots| && db.slots[i].status == SlotScheduled && !Stuck(db, i)
  }

  lemma {:induction false} PublishAllLaws(db: Db, ids: seq<nat>)
    requires Inv(db) && Distinct(ids)
    requires forall k :: 0 <= k < |ids| ==> ids[k] < |db.slots| && Ready(db, ids[k])
    ensures PublishAll(db, ids).Ok? && Inv(PublishAll(db, ids).value)
    ensures PublishedBy(db, PublishAll(db, ids).value, ids)
    decreases |ids|
  {
    hide Inv, Ready, PublishOne, PublishedBy;
    if ids == [] {
      NothingPublished(db);
    } else {
      var last := |ids| - 1;
      var rest, i := ids[..last], ids[last];
      PublishAllLaws(db, rest);
      assert ids == rest + [i];
      assert i !in rest;
      PublishLast(db, PublishAll(db, rest).value, rest, i);
    }
  }

  lemma NothingPublished(db: Db)
    ensures PublishedBy(db, db, [])
  {
  }

  lemma PublishLast(db: Db, db1: Db, rest: seq<nat>, i: nat)
    requires Inv(db) && Inv(db1) && i !in rest && Ready(db, i)
    requires forall k :: 0 <= k < |rest| ==> rest[k] < |db.slots| && Ready(db, rest[k])
    requires PublishedBy(db, db1, rest)
    ensures i < |db1.slots| && PublishOne(db1, i).Ok? && Inv(PublishOne(db1, i).value)
    ensures PublishedBy(db, PublishOne(db1, i).value, rest + [i])
  {
    StillScheduled(db, db1, rest, i);
    PublishOneLaws(db1, i);
    hide Inv, PublishOne, Stuck;
    PublishedStep(db, db1, PublishOne(db1, i).value, rest, i);
  }

  /** Publishing other slots leaves a slot and its version scheduled. */
  lemma StillScheduled(db: Db, db1: Db, rest: seq<nat>, i: nat)
    requires Inv(db) && i !in rest && Ready(db, i)
    requires forall k :: 0 <= k < |rest| ==> rest[k] < |db.slots| && Ready(db, rest[k])
    requires PublishedBy(db, db1, rest)
    ensures db1.slots[i] == db.slots[i] && !Stuck(db1, i)
    ensures db.slots[i].versionId in db.versions
  {
    assert SlotOk(db, i);
    OthersVersion(db, rest, i);
  }

  /** The version of a slot outside the list is not in the list. */
  lemma OthersVersion(db: Db, ids: seq<nat>, i: int)
    requires Inv(db) && IsActive(db, i) && i !in ids
    requires forall k :: 0 <= k < |ids| ==> ids[k] < |db.slots| && IsActive(db, ids[k])
    ensures db.slots[i].versionId !in VersionsOf(db, ids)
  {
    forall k | 0 <= k < |ids| ensures db.slots[ids[k]].versionId != db.slots[i].versionId {
      assert ids[k] in ids;
      assert Apart(db, i, ids[k]);
    }
  }

  lemma PublishedStep(db: Db, db1: Db, db2: Db, rest: seq<nat>, i: nat)
    requires forall k :: 0 <= k < |rest| ==> rest[k] < |db.slots|
    requires PublishedBy(db, db1, rest) && i < |db.slots| && i !in rest
    requires db2.slots == SetSlot(db1, i, SlotPublished).slots && db2.attempts == db1.attempts
    requires db.slots[i].versionId in db.versions
    requires db2.versions == SetStatus(db1, db.slots[i].versionId, Published).versions
    ensures PublishedBy(db, db2, rest + [i])
  {
    var ids := rest + [i];
    forall v ensures v in VersionsOf(db, ids) <==> v in VersionsOf(db, rest) || v == db.slots[i].versionId {
      if v in VersionsOf(db, rest) {
        var k :| 0 <= k < |rest| && v == db.slots[rest[k]].versionId;
        assert ids[k] == rest[k];
      }
      assert ids[|rest|] == i;
    }
  }

  /**
   * Publishing a day succeeds exactly when no slot due that day is stuck. It then publishes every
   * due slot with its version, and changes no other slot, version or attempt.
   */
  lemma PublishLaws(db: Db, date: int)
    requires Inv(db)
    ensures Publish(db, date).Ok? <==> forall i :: IsDue(db, date, i) ==> !Stuck(db, i)
    ensures Publish(db, date).Ok? ==>
      && Inv(Publish(db, date).value)
      && PublishedBy(db, Publish(db, date).value, Due(db, date))
      && (forall i :: !IsDue(Publish(db, date).value, date, i))
  {
    hide Inv, PublishAll;
    var ids := Due(db, date);
    forall k | 0 <= k < |ids| ensures ids[k] < |db.slots| && IsDue(db, date, ids[k]) {
      assert ids[k] in ids;
    }
    if forall i :: IsDue(db, date, i) ==> !Stuck(db, i) {
      PublishAllLaws(db, ids);
    } else {
      var i: nat :| IsDue(db, date, i) && Stuck(db, i);
      assert i in ids;
      var k :| 0 <= k < |ids| && ids[k] == i;
      StuckSlotFails(db, ids, k);
    }
  }

  lemma UnscheduledStops(db: Db, i: nat)
    requires i < |db.slots|
    requires (db.slots[i].versionId in db.versions ==> db.versions[db.slots[i].versionId].status != Scheduled)
    ensures PublishOne(db, i).Err?
  {
  }

  /** Any list of slots that shows a stuck one fails to publish. */
  lemma StuckSlotFails(db: Db, ids: seq<nat>, k: nat)
    requires forall j :: 0 <= j < |ids| ==> ids[j] < |db.slots|
    requires k < |ids| && Stuck(db, ids[k])
    ensures PublishAll(db, ids).Err?
  {
    hide PublishAll, PublishOne;
    if PublishAll(db, ids[..k]).Err? {
      PublishAllStops(db, ids, k);
    } else {
      UnscheduledSurvivesPublishing(db, ids[..k], db.slots[ids[k]].versionId);
      UnscheduledStops(PublishAll(db, ids[..k]).value, ids[k]);
      PublishAllStep(db, ids, k);
      PublishAllStops(db, ids, k + 1);
    }
  }

  lemma {:induction false} UnscheduledSurvivesPublishing(db: Db, ids: seq<nat>, v: string)
    requires forall j :: 0 <= j < |ids| ==> ids[j] < |db.slots|
    requires (v in db.versions ==> db.versions[v].status != Scheduled) && PublishAll(db, ids).Ok?
    ensures var next := PublishAll(db, ids).value;
      && (v in next.versions <==> v in db.versions)
      && (v in next.versions ==> next.versions[v] == db.versions[v])
      && forall i :: 0 <= i < |db.slots| ==> next.slots[i].versionId == db.slots[i].versionId
    decreases |ids|
  {
    if ids != [] {
      UnscheduledSurvivesPublishing(db, ids[..|ids| - 1], v);
    }
  }

  // ------------------------------------------------------------- approval

  lemma SetCurrentKeepsInv(db: Db, v: string, status: SpotStatus)
    requires Inv(db) && v in db.versions
    ensures MakeCurrent(db, v, status).Ok? && Inv(MakeCurrent(db, v, status).value)
  {
    assert VersionOk(db, v);
    NoCurrentClash(db, v);
    var next := MakeCurrent(db, v, status).value;
    forall i ensures SlotOk(next, i) { assert SlotOk(db, i); }
    forall i, j ensures Apart(next, i, j) { assert Apart(db, i, j); }
    forall u ensures VersionOk(next, u) {
      assert VersionOk(db, u);
      SameSlots(db, next, u);
    }
    forall x ensures SpotOk(next, x) { assert SpotOk(db, x); }
  }

  lemma ApproveSucceeds(db: Db, v: string)
    requires Inv(db)
    ensures Approve(db, v).Ok? <==>
      v in db.versions && (db.versions[v].status == Validated || db.versions[v].status == Scheduled)
  {
    if v in db.versions && CanMove(db.versions[v].status, Approved) {
      assert VersionOk(db, v);
      var db1 := SetStatus(db, v, Approved);
      forall x | x in db.spots && x != db.versions[v].spotId ensures db1.spots[x].current != Some(v) {
        assert SpotOk(db, x);
      }
    }
  }

  lemma ApproveKeepsInv(db: Db, v: string)
    requires Inv(db) && Approve(db, v).Ok?
    ensures Inv(Approve(db, v).value)
  {
    ApproveSucceeds(db, v);
    if db.versions[v].status == Validated {
      UnapprovedHasNoSlot(db, v);
    }
    var db1 := SetStatus(db, v, Approved);
    forall i ensures SlotOk(db1, i) {
      assert SlotOk(db, i);
      assert IsActive(db, i) && db.versions[v].status == Validated ==> !ActiveFor(db, v, i);
    }
    forall i, j ensures Apart(db1, i, j) { assert Apart(db, i, j); }
    forall u ensures VersionOk(db1, u) {
      assert VersionOk(db, u);
      SameSlots(db, db1, u);
    }
    forall x ensures SpotOk(db1, x) { assert SpotOk(db, x); }
    SetCurrentKeepsInv(db1, v, SpotApproved);
  }

  // ---------------------------------------------------------- stuck slots

  /** The command approves a scheduled version, and this is its slot. */
  predicate Unseats(db: Db, c: Command, i: nat) {
    c.DoApprove? && c.v in db.versions && db.versions[c.v].status == Scheduled && ActiveFor(db, c.v, i)
  }

  lemma ReplaceStuck(db: Db, prev: string, next: string, invalidate: bool, i: nat)
    requires Inv(db) && Replace(db, prev, next, invalidate).Ok?
    ensures var after := Replace(db, prev, next, invalidate).value;
      (Stuck(after, i) <==> Stuck(db, i)) && (Stuck(db, i) ==> after.slots[i] == db.slots[i])
  {
    ReplaceLaws(db, prev, next, invalidate);
    VacatedKeepsInv(db, prev, next, invalidate);
    hide Vacated, Replace;
    assert SlotOk(db, i) && !ActiveFor(db, next, i);
  }

  lemma QuarantineStuck(db: Db, v: string, blankReason: bool, i: nat)
    requires Inv(db) && Quarantine(db, v, blankReason).Ok?
    ensures var after := Quarantine(db, v, blankReason).value;
      (Stuck(after, i) <==> Stuck(db, i)) && (Stuck(db, i) ==> after.slots[i] == db.slots[i])
  {
    assert SlotOk(db, i);
  }

  lemma PublishStuck(db: Db, date: int, i: nat)
    requires Inv(db) && Publish(db, date).Ok?
    ensures var after := Publish(db, date).value;
      (Stuck(after, i) <==> Stuck(db, i)) && (Stuck(db, i) ==> after.slots[i] == db.slots[i])
  {
    PublishLaws(db, date);
    hide Publish;
    assert SlotOk(db, i);
    var ids := Due(db, date);
    if i < |db.slots| && IsActive(db, i) && i !in ids {
      forall k | 0 <= k < |ids| ensures IsActive(db, ids[k]) {
        assert ids[k] in ids;
        assert IsDue(db, date, ids[k]);
      }
      OthersVersion(db, ids, i);
    }
  }

  lemma ScheduleStuck(db: Db, v: string, date: int, order: int, i: nat)
    requires Inv(db) && Schedule(db, v, date, order).Ok?
    ensures var after := Schedule(db, v, date, order).value;
      (Stuck(after, i) <==> Stuck(db, i)) && (Stuck(db, i) ==> after.slots[i] == db.slots[i])
  {
    assert SlotOk(db, i) && !ActiveFor(db, v, i);
  }

  /** After a command a slot is stuck exactly when it was so before or the command has just unseated it. */
  lemma StuckAfter(db: Db, c: Command, i: nat)
    requires Inv(db)
    ensures Stuck(After(db, c), i) <==> Stuck(db, i) || Unseats(db, c, i)
    ensures Stuck(db, i) ==> After(db, c).slots[i] == db.slots[i]
  {
    assert SlotOk(db, i);
    if c.DoApprove? {
      ApproveSucceeds(db, c.v);
    }
    if Apply(db, c).Ok? {
      match c
      case DoImport(v, spotId) =>
      case DoApprove(v) =>
      case DoSchedule(v, date, order) => ScheduleStuck(db, v, date, order, i);
      case DoReplace(prev, next, invalidate) => ReplaceStuck(db, prev, next, invalidate, i);
      case DoQuarantine(v, blankReason) => QuarantineStuck(db, v, blankReason, i);
      case DoPublish(date) => PublishStuck(db, date, i);
      case DoHold(v) =>
      case DoSubmit(id, v) =>
    }
  }

  // ----------------------------------------------------------------- runs

  lemma AfterKeepsInv(db: Db, c: Command)
    requires Inv(db)
    ensures Inv(After(db, c))
  {
    if Apply(db, c).Ok? {
      match c
      case DoImport(v, spotId) => ImportKeepsInv(db, v, spotId);
      case DoApprove(v) => ApproveKeepsInv(db, v);
      case DoSchedule(v, date, order) => ScheduleKeepsInv(db, v, date, order);
      case DoReplace(prev, next, invalidate) => ReplaceLaws(db, prev, next, invalidate);
      case DoQuarantine(v, blankReason) => QuarantineLaws(db, v, blankReason);
      case DoPublish(date) => PublishLaws(db, date);
      case DoHold(v) => HoldKeepsInv(db, v);
      case DoSubmit(id, v) => AttemptsDoNotMatter(db, Submit(db, id, v).value);
    }
  }

  /** Every run keeps the invariant, whatever it approves. */
  lemma {:induction false} RunsKeepInv(commands: seq<Command>)
    ensures Inv(Run(commands))
  {
    if commands == [] {
    } else {
      var last := |commands| - 1;
      RunsKeepInv(commands[..last]);
      AfterKeepsInv(Run(commands[..last]), commands[last]);
    }
  }

  /** The command does not approve a version that is on the calendar. */
  predicate Guarded(db: Db, c: Command) {
    c.DoApprove? ==> c.v in db.versions ==> db.versions[c.v].status != Scheduled
  }

  ghost predicate GuardedRun(commands: seq<Command>) {
    forall k {:trigger commands[k]} :: 0 <= k < |commands| ==> Guarded(Run(commands[..k]), commands[k])
  }

  lemma GuardedStep(commands: seq<Command>, c: Command)
    ensures GuardedRun(commands + [c]) <==> GuardedRun(commands) && Guarded(Run(commands), c)
  {
    var all := commands + [c];
    assert forall k :: 0 <= k < |commands| ==> all[..k] == commands[..k] && all[k] == commands[k];
    assert all[..|commands|] == commands && all[|commands|] == c;
  }

  /** One step leaves active slots and statuses matching exactly when it approves no scheduled version. */
  lemma StaysCleanExactly(db: Db, c: Command)
    requires Inv(db)
    ensures Clean(After(db, c)) <==> Clean(db) && Guarded(db, c)
  {
    forall i: nat ensures Stuck(After(db, c), i) <==> Stuck(db, i) || Unseats(db, c, i) {
      StuckAfter(db, c, i);
    }
    if !Guarded(db, c) {
      assert VersionOk(db, c.v);
      var i: nat :| ActiveFor(db, c.v, i);
      assert Unseats(db, c, i);
    }
  }

  /**
   * A run ends with every active slot matching its version's status exactly when it never
   * approved a scheduled version.
   */
  lemma {:induction false} CleanExactlyAfterGuardedRuns(commands: seq<Command>)
    ensures Clean(Run(commands)) <==> GuardedRun(commands)
  {
    if commands == [] {
    } else {
      var last := |commands| - 1;
      var rest := commands[..last];
      assert commands == rest + [commands[last]];
      CleanExactlyAfterGuardedRuns(rest);
      GuardedStep(rest, commands[last]);
      RunsKeepInv(rest);
      StaysCleanExactly(Run(rest), commands[last]);
    }
  }

  predicate VersionScheduled(db: Db, i: int)
    requires 0 <= i < |db.slots|
  {
    db.slots[i].versionId in db.versions && db.versions[db.slots[i].versionId].status == Scheduled
  }

  /** After any run, guarded or not, a day can be published exactly when the version of every due slot is scheduled. */
  lemma PublishSucceedsExactly(commands: seq<Command>, date: int)
    ensures var db := Run(commands);
      Publish(db, date).Ok? <==> forall i :: IsDue(db, date, i) ==> VersionScheduled(db, i)
  {
    RunsKeepInv(commands);
    var db := Run(commands);
    PublishLaws(db, date);
    forall i | IsDue(db, date, i) ensures Stuck(db, i) <==> !VersionScheduled(db, i) {
      assert SlotOk(db, i);
    }
  }

  /** So after a run that approved no scheduled version, every day can be published. */
  lemma GuardedRunsAlwaysPublish(commands: seq<Command>, date: int)
    requires GuardedRun(commands)
    ensures Publish(Run(commands), date).Ok?
  {
    CleanExactlyAfterGuardedRuns(commands);
    RunsKeepInv(commands);
    PublishLaws(Run(commands), date);
  }

  /** Whatever of these commands follow, a stuck slot stays as it is, and its day can never be published again. */
  lemma {:induction false} StuckForGood(commands: seq<Command>, more: seq<Command>, i: nat)
    requires Stuck(Run(commands), i)
    ensures Stuck(Run(commands + more), i) && Run(commands + more).slots[i] == Run(commands).slots[i]
    ensures Publish(Run(commands + more), Run(commands).slots[i].date).Err?
    decreases |more|
  {
    var all := commands + more;
    if more == [] {
      assert all == commands;
    } else {
      var last := |all| - 1;
      assert all[..last] == commands + more[..|more| - 1];
      StuckForGood(commands, more[..|more| - 1], i);
      RunsKeepInv(all[..last]);
      StuckAfter(Run(all[..last]), all[last], i);
    }
    RunsKeepInv(all);
    PublishLaws(Run(all), Run(commands).slots[i].date);
    assert IsDue(Run(all), Run(commands).slots[i].date, i);
  }

  /**
   * Approving a scheduled version always works, and from then on no run of these commands lets the
   * day of its slot be published.
   */
  lemma ApprovedScheduleBlocksItsDay(commands: seq<Command>, v: string, more: seq<Command>)
    requires var db := Run(commands); v in db.versions && db.versions[v].status == Scheduled
    ensures HasSlot(Run(commands), v) && Approve(Run(commands), v).Ok?
    ensures forall i: nat :: ActiveFor(Run(commands), v, i) ==>
      Publish(Run(commands + [DoApprove(v)] + more), Run(commands).slots[i].date).Err?
  {
    RunsKeepInv(commands);
    var db, one := Run(commands), commands + [DoApprove(v)];
    assert VersionOk(db, v);
    ApproveSucceeds(db, v);
    assert one[..|commands|] == commands;
    forall i: nat | ActiveFor(db, v, i) ensures Publish(Run(one + more), db.slots[i].date).Err? {
      StuckAfter(db, DoApprove(v), i);
      StuckForGood(one, more, i);
    }
  }

  lemma RunStep(commands: seq<Command>, c: Command)
    ensures Run(commands + [c]) == After(Run(commands), c)
  {
    assert (commands + [c])[..|commands|] == commands;
  }

  /** A version is imported, approved and scheduled for day 1. */
  function FirstSchedule(): seq<Command> { [DoImport("v", "s"), DoApprove("v"), DoSchedule("v", 1, 1)] }

  lemma FirstScheduleIs()
    ensures Run(FirstSchedule()).versions == map["v" := Version("s", Scheduled)]
    ensures Run(FirstSchedule()).slots == [Slot(1, 1, "v", SlotScheduled)]
  {
    RunStep([], DoImport("v", "s"));
    RunStep([DoImport("v", "s")], DoApprove("v"));
    RunStep([DoImport("v", "s"), DoApprove("v")], DoSchedule("v", 1, 1));
    assert [] + [DoImport("v", "s")] == [DoImport("v", "s")];
    assert [DoImport("v", "s")] + [DoApprove("v")] == [DoImport("v", "s"), DoApprove("v")];
    assert [DoImport("v", "s"), DoApprove("v")] + [DoSchedule("v", 1, 1)] == FirstSchedule();
    var db1 := Db(map["v" := Version("s", Validated)], map["s" := Spot(SpotDraft, None)], [], map[]);
    assert Run([DoImport("v", "s")]) == db1;
    var db2 := Db(map["v" := Version("s", Approved)], map["s" := Spot(SpotApproved, Some("v"))], [], map[]);
    assert SetStatus(db1, "v", Approved).versions == db2.versions;
    assert db1.spots["s" := Spot(SpotApproved, Some("v"))] == db2.spots;
    assert Approve(db1, "v") == Ok(db2);
    assert SetStatus(db2, "v", Scheduled).versions == map["v" := Version("s", Scheduled)];
  }

  /** The shortest run with a stuck slot: schedule a version, approve it again, and its day is blocked for good. */
  lemma UnguardedRunBreaks(more: seq<Command>)
    ensures Clean(Run(FirstSchedule())) && Publish(Run(FirstSchedule()), 1).Ok?
    ensures !Clean(Run(FirstSchedule() + [DoApprove("v")]))
    ensures Publish(Run(FirstSchedule() + [DoApprove("v")] + more), 1).Err?
  {
    FirstScheduleIs();
    RunsKeepInv(FirstSchedule());
    var db := Run(FirstSchedule());
    PublishLaws(db, 1);
    ApprovedScheduleBlocksItsDay(FirstSchedule(), "v", more);
    StaysCleanExactly(db, DoApprove("v"));
    RunStep(FirstSchedule(), DoApprove("v"));
    assert ActiveFor(db, "v", 0);
  }

  // ------------------------------------------------------- status only climbs

  function Rank(s: VersionStatus): nat {
    match s
    case Draft => 0
    case Validated => 1
    case Approved => 2
    case Scheduled => 3
    case Published => 4
    case Rejected => 5
    case Superseded => 5
  }

  predicate Terminal(s: VersionStatus) { s == Rejected || s == Superseded }

  /** Versions stay, under the same spot, and their status never falls; the two final ones are final. */
  ghost predicate Climbs(db: Db, next: Db) {
    forall v :: v in db.versions ==>
      && v in next.versions && next.versions[v].spotId == db.versions[v].spotId
      && Rank(db.versions[v].status) <= Rank(next.versions[v].status)
      && (Terminal(db.versions[v].status) ==> next.versions[v] == db.versions[v])
  }

  lemma PublishOneClimbs(db: Db, i: nat)
    requires i < |db.slots|
    ensures PublishOne(db, i).Ok? ==> Climbs(db, PublishOne(db, i).value)
  {
  }

  lemma {:induction false} PublishAllClimbs(db: Db, ids: seq<nat>)
    requires forall k :: 0 <= k < |ids| ==> ids[k] < |db.slots|
    ensures PublishAll(db, ids).Ok? ==> Climbs(db, PublishAll(db, ids).value)
    decreases |ids|
  {
    if PublishAll(db, ids).Ok? && ids != [] {
      var last := |ids| - 1;
      PublishAllClimbs(db, ids[..last]);
      var db1 := PublishAll(db, ids[..last]).value;
      PublishOneClimbs(db1, ids[last]);
    }
  }

  lemma ApproveClimbsExactly(db: Db, v: string)
    requires Approve(db, v).Ok?
    ensures Climbs(db, Approve(db, v).value) <==> db.versions[v].status != Scheduled
  {
    assert Approve(db, v).value.versions == db.versions[v := db.versions[v].(status := Approved)];
  }

  lemma ReplaceVersions(db: Db, prev: string, next: string, invalidate: bool)
    requires Replace(db, prev, next, invalidate).Ok?
    ensures var versions := db.versions[prev := db.versions[prev].(status := Superseded)];
      Replace(db, prev, next, invalidate).value.versions == versions[next := versions[next].(status := Scheduled)]
  {
  }

  lemma ReplaceClimbs(db: Db, prev: string, next: string, invalidate: bool)
    requires Replace(db, prev, next, invalidate).Ok?
    ensures Climbs(db, Replace(db, prev, next, invalidate).value)
  {
    ReplaceVersions(db, prev, next, invalidate);
  }

  lemma QuarantineClimbs(db: Db, v: string, blankReason: bool)
    requires Quarantine(db, v, blankReason).Ok?
    ensures Climbs(db, Quarantine(db, v, blankReason).value)
  {
    assert Quarantine(db, v, blankReason).value.versions == db.versions[v := db.versions[v].(status := Superseded)];
  }

  /** From any state whatsoever, a step climbs exactly when it is not an approval of a scheduled version. */
  lemma StatusOnlyClimbs(db: Db, c: Command)
    ensures Climbs(db, After(db, c)) <==> Guarded(db, c) || Apply(db, c).Err?
  {
    if Apply(db, c).Ok? {
      match c
      case DoImport(v, spotId) =>
      case DoApprove(v) => ApproveClimbsExactly(db, v);
      case DoSchedule(v, date, order) =>
      case DoReplace(prev, next, invalidate) => ReplaceClimbs(db, prev, next, invalidate);
      case DoQuarantine(v, blankReason) => QuarantineClimbs(db, v, blankReason);
      case DoPublish(date) => PublishAllClimbs(db, Due(db, date));
      case DoHold(v) =>
      case DoSubmit(id, v) =>
    }
  }

  lemma {:induction false} GuardedRunsClimb(commands: seq<Command>, more: seq<Command>)
    requires GuardedRun(commands + more)
    ensures Climbs(Run(commands), Run(commands + more))
  {
    var all := commands + more;
    if more == [] {
      assert all == commands;
    } else {
      var last := |all| - 1;
      var rest := more[..|more| - 1];
      assert all[..last] == commands + rest;
      forall k | 0 <= k < last ensures Guarded(Run((commands + rest)[..k]), (commands + rest)[k]) {
        assert (commands + rest)[..k] == all[..k];
        assert (commands + rest)[k] == all[k];
      }
      GuardedRunsClimb(commands, rest);
      assert Guarded(Run(all[..last]), all[last]);
      StatusOnlyClimbs(Run(all[..last]), all[last]);
    }
  }
}
