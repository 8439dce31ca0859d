/** Future coverage (src/publication.ts:213-219): what it counts, and how every operation moves it. */
module Coverage {
  import opened Common
  import opened Sets
  import opened Lifecycle
  import opened LifecycleTheorems

  /** A slot that `countFutureCoverage` reads. */
  predicate Counts(db: Db, from: int, i: int) {
    0 <= i < |db.slots| && db.slots[i].date > from
      && (db.slots[i].status == SlotScheduled || db.slots[i].status == SlotPublished)
  }

  function FutureSlots(db: Db, from: int): set<int> {
    set i | 0 <= i < |db.slots| && Counts(db, from, i)
  }

  function ApprovedVersions(db: Db): set<string> {
    set v | v in db.versions && db.versions[v].status == Approved
  }

  /** The set whose size is returned. */
  function Covered(db: Db, from: int): set<string> {
    (set i | i in FutureSlots(db, from) :: db.slots[i].versionId) + ApprovedVersions(db)
  }

  function CountFutureCoverage(db: Db, from: int): nat { |Covered(db, from)| }

  lemma {:induction false} InjectiveImage(db: Db, s: set<int>)
    requires Inv(db)
    requires forall i :: i in s ==> 0 <= i < |db.slots| && IsActive(db, i)
    ensures |set i | i in s :: db.slots[i].versionId| == |s|
  {
    var all := set i | i in s :: db.slots[i].versionId;
    if s == {} {
      assert all == {};
    } else {
      var i := Pick(s);
      var rest := s - {i};
      InjectiveImage(db, rest);
      var image := set j | j in rest :: db.slots[j].versionId;
      assert db.slots[i].versionId !in image by {
        forall j | j in rest ensures db.slots[j].versionId != db.slots[i].versionId {
          assert Apart(db, i, j);
        }
      }
      assert all == image + {db.slots[i].versionId};
    }
  }

  /** An approved version that holds a counted slot all the same: it is counted once, not twice. */
  predicate Doubled(db: Db, from: int, v: string) {
    v in ApprovedVersions(db) && exists i :: 0 <= i < |db.slots| && Counts(db, from, i) && db.slots[i].versionId == v
  }

  function DoubledVersions(db: Db, from: int): set<string> {
    set v | v in ApprovedVersions(db) && Doubled(db, from, v)
  }

  /**
   * In every state of every run coverage is the future active slots plus the approved versions,
   * less the approved versions that hold such a slot; so it is the sum of the two exactly when
   * there is no such version.
   */
  lemma CoverageCountsEachOnce(db: Db, from: int)
    requires Inv(db)
    ensures FutureSlots(db, from) == set i | 0 <= i < |db.slots| && db.slots[i].date > from && IsActive(db, i)
    ensures CountFutureCoverage(db, from) ==
      |FutureSlots(db, from)| + |ApprovedVersions(db)| - |DoubledVersions(db, from)|
    ensures CountFutureCoverage(db, from) == |FutureSlots(db, from)| + |ApprovedVersions(db)| <==>
      forall v :: !Doubled(db, from, v)
  {
    forall i | 0 <= i < |db.slots| && IsActive(db, i)
      ensures db.slots[i].status == SlotScheduled || db.slots[i].status == SlotPublished
    {
      assert SlotOk(db, i);
    }
    InjectiveImage(db, FutureSlots(db, from));
    var image := set i | i in FutureSlots(db, from) :: db.slots[i].versionId;
    assert image * ApprovedVersions(db) == DoubledVersions(db, from);
    if DoubledVersions(db, from) != {} {
      var v := Pick(DoubledVersions(db, from));
      assert Doubled(db, from, v);
    } else if v :| Doubled(db, from, v) {
      assert v in DoubledVersions(db, from);
    }
  }

  /** After a run that approves no scheduled version, there is no such version. */
  lemma NothingDoubled(commands: seq<Command>, from: int, v: string)
    requires GuardedRun(commands)
    ensures !Doubled(Run(commands), from, v)
  {
    CleanExactlyAfterGuardedRuns(commands);
    RunsKeepInv(commands);
    var db := Run(commands);
    forall i | 0 <= i < |db.slots| && Counts(db, from, i)
      ensures db.slots[i].versionId in db.versions && db.versions[db.slots[i].versionId].status != Approved
    {
      assert SlotOk(db, i) && !Stuck(db, i);
    }
  }

  /** A version holds a counted slot. */
  ghost predicate HoldsCounted(db: Db, from: int, v: string) {
    exists i: nat :: Counts(db, from, i) && db.slots[i].versionId == v
  }

  /** A version is covered when it is approved or holds a counted slot. */
  ghost predicate ShowsUp(db: Db, from: int, v: string) { v in ApprovedVersions(db) || HoldsCounted(db, from, v) }

  lemma CoveredMeans(db: Db, from: int, v: string)
    ensures v in Covered(db, from) <==> ShowsUp(db, from, v)
  {
    hide ApprovedVersions;
    if i: nat :| Counts(db, from, i) && db.slots[i].versionId == v {
      assert i in FutureSlots(db, from);
    }
  }

  lemma CoveredBecomes(db: Db, next: Db, from: int, gone: set<string>, come: set<string>)
    requires forall v :: ShowsUp(next, from, v) <==> (ShowsUp(db, from, v) && v !in gone) || v in come
    ensures Covered(next, from) == Covered(db, from) - gone + come
  {
    hide ShowsUp, Covered;
    forall v ensures v in Covered(next, from) <==> v in Covered(db, from) - gone + come {
      CoveredMeans(db, from, v);
      CoveredMeans(next, from, v);
    }
  }

  /** When only one version is covered otherwise than before, coverage changes by that one. */
  lemma CoverageMoves(db: Db, next: Db, from: int, v: string)
    requires forall u :: u != v ==> (ShowsUp(next, from, u) <==> ShowsUp(db, from, u))
    ensures CountFutureCoverage(next, from) - (if ShowsUp(next, from, v) then 1 else 0)
      == CountFutureCoverage(db, from) - if ShowsUp(db, from, v) then 1 else 0
  {
    hide ShowsUp, Covered;
    var a, b := Covered(db, from), Covered(next, from);
    forall u ensures u in b - {v} <==> u in a - {v} {
      CoveredMeans(db, from, u);
      CoveredMeans(next, from, u);
    }
    assert a - {v} == b - {v};
    CoveredMeans(db, from, v);
    CoveredMeans(next, from, v);
    SizeWithout(a, v);
    SizeWithout(b, v);
  }

  lemma SizeWithout(s: set<string>, v: string)
    ensures |s - {v}| == |s| - if v in s then 1 else 0
  {
  }

  /** The same slots hold the same counted versions. */
  lemma SlotsUnchanged(db: Db, next: Db, from: int, v: string)
    requires next.slots == db.slots
    ensures HoldsCounted(next, from, v) <==> HoldsCounted(db, from, v)
  {
    forall i ensures Counts(next, from, i) == Counts(db, from, i) {}
  }

  /** A new status of one version that keeps the slots. */
  lemma StatusMoves(db: Db, next: Db, from: int, v: string)
    requires next.slots == db.slots
    requires forall u :: u != v ==> (u in ApprovedVersions(next) <==> u in ApprovedVersions(db))
    ensures CountFutureCoverage(next, from) - (if ShowsUp(next, from, v) then 1 else 0)
      == CountFutureCoverage(db, from) - if ShowsUp(db, from, v) then 1 else 0
    ensures HoldsCounted(next, from, v) <==> HoldsCounted(db, from, v)
  {
    hide ApprovedVersions, HoldsCounted, CountFutureCoverage;
    forall u ensures HoldsCounted(next, from, u) <==> HoldsCounted(db, from, u) {
      SlotsUnchanged(db, next, from, u);
    }
    CoverageMoves(db, next, from, v);
  }

  /** Whether a version holds a counted slot is decided by its one active slot. */
  lemma CountedByItsSlot(db: Db, v: string, i: nat, from: int)
    requires Inv(db) && ActiveFor(db, v, i)
    ensures HoldsCounted(db, from, v) <==> db.slots[i].date > from
  {
    assert SlotOk(db, i);
    if j: nat :| Counts(db, from, j) && db.slots[j].versionId == v {
      assert Apart(db, i, j);
    }
  }

  lemma SlotlessIsUncounted(db: Db, v: string, from: int)
    requires !HasSlot(db, v)
    ensures !HoldsCounted(db, from, v)
  {
    if i: nat :| Counts(db, from, i) && db.slots[i].versionId == v {
      assert ActiveFor(db, v, i);
    }
  }

  /** Approving adds one exactly when the version does not hold a counted slot already. */
  lemma ApproveCounts(db: Db, v: string, from: int)
    requires Approve(db, v).Ok?
    ensures CountFutureCoverage(Approve(db, v).value, from) ==
      CountFutureCoverage(db, from) + if HoldsCounted(db, from, v) then 0 else 1
  {
    var next := Approve(db, v).value;
    assert next.versions == db.versions[v := db.versions[v].(status := Approved)] && next.slots == db.slots;
    assert v in ApprovedVersions(next) && v !in ApprovedVersions(db);
    hide Approve;
    forall u | u != v ensures u in ApprovedVersions(next) <==> u in ApprovedVersions(db) {}
    hide ApprovedVersions, HoldsCounted, CountFutureCoverage;
    StatusMoves(db, next, from, v);
  }

  /**
   * Approving a validated version adds one. Approving a scheduled one, which the transition table
   * allows, adds one only when its day is no longer ahead.
   */
  lemma ApproveCoverage(db: Db, v: string, from: int)
    requires Inv(db) && Approve(db, v).Ok?
    ensures db.versions[v].status == Validated || (db.versions[v].status == Scheduled && HasSlot(db, v))
    ensures db.versions[v].status == Validated ==>
      CountFutureCoverage(Approve(db, v).value, from) == CountFutureCoverage(db, from) + 1
    ensures db.versions[v].status == Scheduled ==> forall i: nat :: ActiveFor(db, v, i) ==>
      CountFutureCoverage(Approve(db, v).value, from) ==
        CountFutureCoverage(db, from) + if db.slots[i].date > from then 0 else 1
  {
    ApproveSucceeds(db, v);
    ApproveCounts(db, v, from);
    assert VersionOk(db, v);
    if db.versions[v].status == Validated {
      UnapprovedHasNoSlot(db, v);
      SlotlessIsUncounted(db, v, from);
    } else {
      forall i: nat | ActiveFor(db, v, i) ensures HoldsCounted(db, from, v) <==> db.slots[i].date > from {
        CountedByItsSlot(db, v, i, from);
      }
    }
  }

  /** The tables hold one version, scheduled for day 1. */
  predicate OneScheduled(db: Db) {
    db.versions == map["v" := Version("s", Scheduled)] && db.slots == [Slot(1, 1, "v", SlotScheduled)]
  }

  lemma OneScheduledIsCovered(db: Db)
    requires OneScheduled(db)
    ensures CountFutureCoverage(db, 0) == 1
  {
    assert FutureSlots(db, 0) == {0} && ApprovedVersions(db) == {};
    assert Covered(db, 0) == {"v"};
  }

  lemma OneScheduledDoubles(db: Db)
    requires OneScheduled(db) && Approve(db, "v").Ok?
    ensures Doubled(Approve(db, "v").value, 0, "v")
  {
    var next := Approve(db, "v").value;
    assert next.slots == db.slots && "v" in ApprovedVersions(next);
    hide Approve, ApprovedVersions;
    assert Counts(next, 0, 0) && next.slots[0].versionId == "v";
  }

  lemma ScheduledIsCoveredOnce(db: Db)
    requires Inv(db) && OneScheduled(db)
    ensures Approve(db, "v").Ok? && CountFutureCoverage(db, 0) == 1
    ensures CountFutureCoverage(Approve(db, "v").value, 0) == 1 && Doubled(Approve(db, "v").value, 0, "v")
  {
    ApproveSucceeds(db, "v");
    OneScheduledIsCovered(db);
    OneScheduledDoubles(db);
    assert ActiveFor(db, "v", 0);
    hide Approve, CountFutureCoverage, Doubled, Inv;
    ApproveCoverage(db, "v", 0);
  }

  /** A version scheduled for day 1, approved once more on day 0: it was covered and still counts once. */
  lemma ApprovalThatAddsNothing()
    ensures var db := Run(FirstSchedule());
      && Approve(db, "v").Ok?
      && CountFutureCoverage(db, 0) == 1
      && CountFutureCoverage(Approve(db, "v").value, 0) == 1
      && Doubled(Approve(db, "v").value, 0, "v")
  {
    FirstScheduleIs();
    RunsKeepInv(FirstSchedule());
    hide Run, Inv, CountFutureCoverage, Approve, Doubled;
    ScheduledIsCoveredOnce(Run(FirstSchedule()));
  }

  /** Scheduling moves an approved version onto a day: unchanged for a later day, one less for a day already reached. */
  lemma ScheduleCoverage(db: Db, v: string, date: int, order: int, from: int)
    requires Inv(db) && Schedule(db, v, date, order).Ok?
    ensures CountFutureCoverage(Schedule(db, v, date, order).value, from) ==
      CountFutureCoverage(db, from) - if date > from then 0 else 1
  {
    var next := Schedule(db, v, date, order).value;
    assert !HasSlot(db, v) by {
      forall i: nat ensures ActiveFor(db, v, i) ==> SlotClash(db, date, order, v) {}
    }
    AppendedCoverage(db, next, v, date, order, from);
  }

  lemma AppendedCoverage(db: Db, next: Db, v: string, date: int, order: int, from: int)
    requires v in db.versions && db.versions[v].status == Approved && !HasSlot(db, v)
    requires next.versions == db.versions[v := db.versions[v].(status := Scheduled)]
    requires next.slots == db.slots + [Slot(date, order, v, SlotScheduled)]
    ensures Covered(next, from) == Covered(db, from) - if date > from then {} else {v}
    ensures v in Covered(db, from)
  {
    var n := |db.slots|;
    forall i: nat | i < n ensures next.slots[i] == db.slots[i] && Counts(next, from, i) == Counts(db, from, i) {}
    assert next.slots[n] == Slot(date, order, v, SlotScheduled);
    assert ApprovedVersions(next) == ApprovedVersions(db) - {v};
    forall u
      ensures ShowsUp(next, from, u) <==> (ShowsUp(db, from, u) && u !in {v}) || u in (if date > from then {v} else {})
    {
      AppendedShowsUp(db, next, u, v, date, order, from);
    }
    CoveredBecomes(db, next, from, {v}, if date > from then {v} else {});
  }

  lemma AppendedShowsUp(db: Db, next: Db, u: string, v: string, date: int, order: int, from: int)
    requires v in db.versions && db.versions[v].status == Approved && !HasSlot(db, v)
    requires next.versions == db.versions[v := db.versions[v].(status := Scheduled)]
    requires next.slots == db.slots + [Slot(date, order, v, SlotScheduled)]
    ensures ShowsUp(next, from, u) <==> (ShowsUp(db, from, u) && u != v) || (u == v && date > from)
  {
    var n := |db.slots|;
    assert u in ApprovedVersions(next) <==> u in ApprovedVersions(db) && u != v;
    forall i: nat | i < n ensures Counts(next, from, i) == Counts(db, from, i) && next.slots[i] == db.slots[i] {}
    if i: nat :| Counts(db, from, i) && db.slots[i].versionId == u {
      assert u != v by { assert IsActive(db, i); assert u == v ==> ActiveFor(db, v, i); }
      assert Counts(next, from, i) && next.slots[i].versionId == u;
    }
    if u == v && date > from {
      assert Counts(next, from, n) && next.slots[n].versionId == v;
    }
    if i: nat :| Counts(next, from, i) && next.slots[i].versionId == u {
      if i < n {
        assert Counts(db, from, i) && db.slots[i].versionId == u;
        assert u == v ==> ActiveFor(db, v, i);
      }
    }
  }

  /** Publishing a day leaves coverage as it is. */
  lemma PublishCoverage(db: Db, date: int, from: int)
    requires Inv(db) && Publish(db, date).Ok?
    ensures CountFutureCoverage(Publish(db, date).value, from) == CountFutureCoverage(db, from)
  {
    var next := Publish(db, date).value;
    forall v ensures ShowsUp(next, from, v) <==> ShowsUp(db, from, v) {
      PublishKeepsApproved(db, date, v);
      PublishKeepsHeld(db, date, from, v);
      hide Publish, Inv, HoldsCounted, ApprovedVersions;
    }
    hide Publish, Inv, ShowsUp;
    CoveredBecomes(db, next, from, {}, {});
  }

  lemma PublishKeepsSlot(db: Db, date: int, from: int, i: nat)
    requires Inv(db) && Publish(db, date).Ok?
    ensures Counts(Publish(db, date).value, from, i) == Counts(db, from, i)
    ensures i < |db.slots| ==>
      i < |Publish(db, date).value.slots| && Publish(db, date).value.slots[i].versionId == db.slots[i].versionId
  {
    PublishLaws(db, date);
    hide Publish, Inv;
    if i < |db.slots| && i in Due(db, date) {
      assert IsDue(db, date, i);
    }
  }

  lemma PublishKeepsHeld(db: Db, date: int, from: int, v: string)
    requires Inv(db) && Publish(db, date).Ok?
    ensures HoldsCounted(Publish(db, date).value, from, v) <==> HoldsCounted(db, from, v)
  {
    var next := Publish(db, date).value;
    forall i: nat
      ensures Counts(next, from, i) && next.slots[i].versionId == v <==>
        Counts(db, from, i) && db.slots[i].versionId == v
    {
      PublishKeepsSlot(db, date, from, i);
    }
    hide Publish, Inv;
  }

  lemma PublishKeepsApproved(db: Db, date: int, v: string)
    requires Inv(db) && Publish(db, date).Ok?
    ensures v in ApprovedVersions(Publish(db, date).value) <==> v in ApprovedVersions(db)
  {
    PublishLaws(db, date);
    hide Publish, Inv;
    var due := Due(db, date);
    if v in VersionsOf(db, due) {
      var k :| 0 <= k < |due| && v == db.slots[due[k]].versionId;
      assert due[k] in due;
      assert IsDue(db, date, due[k]) && !Stuck(db, due[k]);
    }
  }

  /** Cancelling the slots of a version that leaves the calendar. */
  lemma CancelledShowsUp(db: Db, next: Db, u: string, v: string, from: int)
    requires Inv(db) && v in db.versions && OnCalendar(db.versions[v].status)
    requires next.versions == db.versions[v := db.versions[v].(status := Superseded)]
    requires next.slots == CancelAll(db.slots, v)
    ensures ShowsUp(next, from, u) <==> ShowsUp(db, from, u) && u != v
  {
    assert u in ApprovedVersions(next) <==> u in ApprovedVersions(db) && u != v;
    assert v !in ApprovedVersions(db);
    forall i: nat ensures Counts(next, from, i) <==> Counts(db, from, i) && db.slots[i].versionId != v {}
    forall i: nat | Counts(next, from, i) ensures next.slots[i] == db.slots[i] {}
    if i: nat :| Counts(db, from, i) && db.slots[i].versionId == u {
      if u != v { assert Counts(next, from, i) && next.slots[i].versionId == u; }
    }
    if i: nat :| Counts(next, from, i) && next.slots[i].versionId == u {
      assert Counts(db, from, i) && db.slots[i].versionId == u;
    }
  }

  /** The one active slot of a version on the calendar decides whether the version is covered. */
  lemma CoveredByItsSlot(db: Db, v: string, i: nat, from: int)
    requires Inv(db) && v in db.versions && OnCalendar(db.versions[v].status) && ActiveFor(db, v, i)
    ensures v in Covered(db, from) <==> db.slots[i].date > from
  {
    CountedByItsSlot(db, v, i, from);
    assert v in Covered(db, from) <==> ShowsUp(db, from, v);
  }

  /** Quarantine takes one away exactly when the version's day is still ahead. */
  lemma QuarantineCoverage(db: Db, v: string, blankReason: bool, i: nat, from: int)
    requires Inv(db) && Quarantine(db, v, blankReason).Ok? && ActiveFor(db, v, i)
    ensures CountFutureCoverage(Quarantine(db, v, blankReason).value, from) ==
      CountFutureCoverage(db, from) - if db.slots[i].date > from then 1 else 0
  {
    var next := Quarantine(db, v, blankReason).value;
    forall u ensures ShowsUp(next, from, u) <==> (ShowsUp(db, from, u) && u !in {v}) || u in {} {
      CancelledShowsUp(db, next, u, v, from);
    }
    CoveredBecomes(db, next, from, {v}, {});
    CoveredByItsSlot(db, v, i, from);
  }

  /** Every replacement takes exactly one away, whatever the day. */
  lemma ReplaceTakesOne(db: Db, prev: string, next: string, invalidate: bool, from: int)
    requires Inv(db) && Replace(db, prev, next, invalidate).Ok?
    ensures CountFutureCoverage(Replace(db, prev, next, invalidate).value, from) == CountFutureCoverage(db, from) - 1
  {
    ReplaceLaws(db, prev, next, invalidate);
    var after := Replace(db, prev, next, invalidate).value;
    var i := FindActive(db, prev, |db.slots|).value;
    var date, order := db.slots[i].date, db.slots[i].order;
    var mid := Vacated(db, prev, next, invalidate);
    VacatedKeepsInv(db, prev, next, invalidate);
    forall u ensures ShowsUp(mid, from, u) <==> (ShowsUp(db, from, u) && u !in {prev}) || u in {} {
      CancelledShowsUp(db, mid, u, prev, from);
    }
    CoveredBecomes(db, mid, from, {prev}, {});
    CoveredByItsSlot(db, prev, i, from);
    assert !HasSlot(mid, next) by {
      forall j: nat ensures ActiveFor(mid, next, j) ==> SlotClash(mid, date, order, next) {}
    }
    AppendedCoverage(mid, after, next, date, order, from);
  }

  /** Holding takes one away exactly from an approved version that holds no counted slot. */
  lemma HoldCoverage(db: Db, v: string, from: int)
    requires Inv(db) && Hold(db, v).Ok?
    ensures CountFutureCoverage(Hold(db, v).value, from) ==
      CountFutureCoverage(db, from) - if db.versions[v].status == Approved && !HoldsCounted(db, from, v) then 1 else 0
  {
    var next := Hold(db, v).value;
    assert next.versions == db.versions[v := db.versions[v].(status := Rejected)] && next.slots == db.slots;
    assert v !in ApprovedVersions(next) && (v in ApprovedVersions(db) <==> db.versions[v].status == Approved);
    hide Hold, Inv;
    forall u | u != v ensures u in ApprovedVersions(next) <==> u in ApprovedVersions(db) {}
    hide ApprovedVersions, HoldsCounted, CountFutureCoverage;
    StatusMoves(db, next, from, v);
  }
}
