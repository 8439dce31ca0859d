/**
 * The publication lifecycle of immutable spot versions (src/publication.ts:57-211 and the
 * admin hold of src/admin.ts:44-52): versions, publication slots, spots and attempts under
 * import, approve, schedule, replace, quarantine, publish and hold. Each operation is one
 * transaction: it either makes all its updates or none. Dates are calendar days.
 */
module Lifecycle {
  import opened Common
  import opened Sorting

  // ------------------------------------------------------------------ data

  datatype VersionStatus = Draft | Validated | Approved | Scheduled | Published | Rejected | Superseded

  datatype SlotStatus = SlotScheduled | SlotHeld | SlotPublished | SlotCancelled

  datatype SpotStatus = SpotDraft | SpotApproved | SpotPublished | SpotArchived

  datatype Version = Version(spotId: string, status: VersionStatus)

  datatype Slot = Slot(date: int, order: int, versionId: string, status: SlotStatus)

  datatype Spot = Spot(status: SpotStatus, current: Option<string>)

  datatype AttemptRow = AttemptRow(versionId: string, valid: bool, replacement: Option<string>)

  /** The tables; slots are never deleted, so a slot's id is its position. */
  datatype Db = Db(
      versions: map<string, Version>, spots: map<string, Spot>, slots: seq<Slot>, attempts: map<string, AttemptRow>)

  /** What a replacement returns. */
  datatype Replaced = Replaced(slot: nat, previousSlotStatus: SlotStatus, invalidatedAttempts: nat)

  datatype LifecycleError =
    | NotFound
    | InvalidTransition(from: VersionStatus, to: VersionStatus)
    | InvalidSlot
    | SameVersion
    | OldNotActive
    | NewNotApproved
    | NoActiveSlot
    | NotPublished
    | BlankReason
    | UniqueViolation

  /** The table of `assertLifecycleTransition`. */
  predicate CanMove(from: VersionStatus, to: VersionStatus) {
    match from
    case Draft => to == Validated || to == Rejected
    case Validated => to == Approved || to == Rejected
    case Approved => to == Scheduled || to == Rejected
    case Scheduled => to == Published || to == Approved
    case Published => to == Superseded
    case Rejected => false
    case Superseded => false
  }

  predicate Active(s: SlotStatus) { s == SlotScheduled || s == SlotHeld || s == SlotPublished }

  predicate IsActive(db: Db, i: int) { 0 <= i < |db.slots| && Active(db.slots[i].status) }

  /** The two partial unique indexes over active slots. */
  predicate SlotClash(db: Db, date: int, order: int, v: string) {
    exists i :: 0 <= i < |db.slots| && IsActive(db, i)
      && (db.slots[i].versionId == v || (db.slots[i].date == date && db.slots[i].order == order))
  }

  /** The unique index over `Spot.currentVersionId`. */
  predicate CurrentClash(db: Db, spotId: string, v: string) {
    exists x :: x in db.spots && x != spotId && db.spots[x].current == Some(v)
  }

  // ------------------------------------------------- operations on a state

  function SetStatus(db: Db, v: string, status: VersionStatus): Db
    requires v in db.versions
  {
    db.(versions := db.versions[v := db.versions[v].(status := status)])
  }

  function SetSlot(db: Db, i: nat, status: SlotStatus): Db
    requires i < |db.slots|
  {
    db.(slots := db.slots[i := db.slots[i].(status := status)])
  }

  /** `spot.update` with a new current version. */
  function MakeCurrent(db: Db, v: string, status: SpotStatus): Result<Db, LifecycleError>
    requires v in db.versions
  {
    var spotId := db.versions[v].spotId;
    if spotId !in db.spots then Err(NotFound)
    else if CurrentClash(db, spotId, v) then Err(UniqueViolation)
    else Ok(db.(spots := db.spots[spotId := Spot(status, Some(v))]))
  }

  /** `persistValidatedDraft`: a new version arrives validated, under a new or an existing spot. */
  function Import(db: Db, v: string, spotId: string): Result<Db, LifecycleError> {
    if v in db.versions then Ok(db)
    else Ok(db.(
      versions := db.versions[v := Version(spotId, Validated)],
      spots := if spotId in db.spots then db.spots else db.spots[spotId := Spot(SpotDraft, None)]))
  }

  function Approve(db: Db, v: string): Result<Db, LifecycleError> {
    if v !in db.versions then Err(NotFound)
    else if !CanMove(db.versions[v].status, Approved) then Err(InvalidTransition(db.versions[v].status, Approved))
    else MakeCurrent(SetStatus(db, v, Approved), v, SpotApproved)
  }

  function Schedule(db: Db, v: string, date: int, order: int): Result<Db, LifecycleError> {
    if order < 1 then Err(InvalidSlot)
    else if v !in db.versions then Err(NotFound)
    else if !CanMove(db.versions[v].status, Scheduled) then Err(InvalidTransition(db.versions[v].status, Scheduled))
    else if SlotClash(db, date, order, v) then Err(UniqueViolation)
    else Ok(SetStatus(db.(slots := db.slots + [Slot(date, order, v, SlotScheduled)]), v, Scheduled))
  }

  predicate ActiveFor(db: Db, v: string, i: nat) { IsActive(db, i) && db.slots[i].versionId == v }

  /** `findFirst` of an active slot of a version, latest date first. */
  function FindActive(db: Db, v: string, n: nat): (r: Option<nat>)
    requires n <= |db.slots|
    ensures r.Some? ==> r.value < n && ActiveFor(db, v, r.value)
    ensures r.Some? ==> forall i: nat :: i < n && ActiveFor(db, v, i) ==> db.slots[i].date <= db.slots[r.value].date
    ensures r.None? ==> forall i: nat :: i < n ==> !ActiveFor(db, v, i)
  {
    if n == 0 then None
    else
      var rest := FindActive(db, v, n - 1);
      if ActiveFor(db, v, n - 1) && (rest.None? || db.slots[rest.value].date < db.slots[n - 1].date) then Some(n - 1)
        else rest
  }

  /** A retired version stops being the current one of its spot. */
  function Retire(db: Db, v: string): Db
    requires v in db.versions
  {
    var spotId := db.versions[v].spotId;
    if spotId in db.spots && db.spots[spotId].current == Some(v)
    then db.(spots := db.spots[spotId := Spot(SpotArchived, None)])
    else db
  }

  predicate Stale(a: AttemptRow, v: string) { a.versionId == v && a.valid }

  function Invalidate(db: Db, v: string, replacement: Option<string>): Db {
    db.(attempts := map a | a in db.attempts ::
      if Stale(db.attempts[a], v) then AttemptRow(v, false, replacement) else db.attempts[a])
  }

  function Replace(db: Db, prev: string, next: string, invalidate: bool): Result<Db, LifecycleError> {
    if prev == next then Err(SameVersion)
    else if prev !in db.versions || next !in db.versions then Err(NotFound)
    else if db.versions[prev].status != Scheduled && db.versions[prev].status != Published then Err(OldNotActive)
    else if db.versions[next].status != Approved then Err(NewNotApproved)
    else
      match FindActive(db, prev, |db.slots|)
      case None => Err(NoActiveSlot)
      case Some(i) =>
        var slot := db.slots[i];
        if db.versions[prev].spotId != db.versions[next].spotId && db.versions[prev].spotId !in db.spots
          then Err(NotFound)
        else
          var db1 := SetStatus(SetSlot(db, i, SlotCancelled), prev, Superseded);
          var db2 := if db.versions[prev].spotId != db.versions[next].spotId then Retire(db1, prev) else db1;
          var db3 := if invalidate then Invalidate(db2, prev, Some(next)) else db2;
          if SlotClash(db3, slot.date, slot.order, next) then Err(UniqueViolation)
          else
            var slots := db3.slots + [Slot(slot.date, slot.order, next, SlotScheduled)];
            Ok(SetStatus(db3.(slots := slots), next, Scheduled))
  }

  function CancelAll(slots: seq<Slot>, v: string): seq<Slot> {
    seq(|slots|, i requires 0 <= i < |slots| =>
      if slots[i].versionId == v && Active(slots[i].status) then slots[i].(status := SlotCancelled) else slots[i])
  }

  /** `blankReason` says whether the given reason is empty once trimmed. */
  function Quarantine(db: Db, v: string, blankReason: bool): Result<Db, LifecycleError> {
    if blankReason then Err(BlankReason)
    else if v !in db.versions then Err(NotFound)
    else if db.versions[v].status != Published then Err(NotPublished)
    else if db.versions[v].spotId !in db.spots then Err(NotFound)
    else Ok(Retire(Invalidate(SetStatus(db.(slots := CancelAll(db.slots, v)), v, Superseded), v, None), v))
  }

  /** One pass of the loop of `publishPacificDate`. */
  function PublishOne(db: Db, i: nat): Result<Db, LifecycleError>
    requires i < |db.slots|
  {
    var v := db.slots[i].versionId;
    if v !in db.versions then Err(NotFound)
    else if !CanMove(db.versions[v].status, Published) then Err(InvalidTransition(db.versions[v].status, Published))
    else
      match MakeCurrent(SetStatus(db, v, Published), v, SpotPublished)
      case Err(e) => Err(e)
      case Ok(db1) => Ok(SetSlot(db1, i, SlotPublished))
  }

  function PublishAll(db: Db, ids: seq<nat>): (r: Result<Db, LifecycleError>)
    requires forall k :: 0 <= k < |ids| ==> ids[k] < |db.slots|
    ensures r.Ok? ==> |r.value.slots| == |db.slots|
    decreases |ids|
  {
    if ids == [] then Ok(db)
    else
      var last := |ids| - 1;
      match PublishAll(db, ids[..last])
      case Err(e) => Err(e)
      case Ok(db1) => PublishOne(db1, ids[last])
  }

  predicate IsDue(db: Db, date: int, i: int) {
    0 <= i < |db.slots| && db.slots[i].date == date && db.slots[i].status == SlotScheduled
  }

  function DueIds(db: Db, date: int, n: nat): (ids: seq<nat>)
    requires n <= |db.slots|
    ensures forall i: nat :: i in ids <==> i < n && IsDue(db, date, i)
    ensures Distinct(ids)
  {
    if n == 0 then []
    else if IsDue(db, date, n - 1) then DueIds(db, date, n - 1) + [n - 1]
    else DueIds(db, date, n - 1)
  }

  /** `orderBy slotOrder`; positions that are no slot rank last so that the order is total. */
  predicate SlotBefore(db: Db, i: nat, j: nat) {
    j >= |db.slots| || (i < |db.slots| && db.slots[i].order <= db.slots[j].order)
  }

  function SlotLe(db: Db): (nat, nat) -> bool { (i: nat, j: nat) => SlotBefore(db, i, j) }

  function Due(db: Db, date: int): (ids: seq<nat>)
    ensures Distinct(ids)
    ensures forall i: nat :: i in ids <==> IsDue(db, date, i)
    ensures forall k :: 0 <= k < |ids| ==> ids[k] < |db.slots|
  {
    var ids := DueIds(db, date, |db.slots|);
    SortPermutes(SlotLe(db), ids);
    DistinctPermutation(ids, Sort(SlotLe(db), ids));
    assert forall k :: 0 <= k < |ids| ==> Sort(SlotLe(db), ids)[k] in Sort(SlotLe(db), ids);
    Sort(SlotLe(db), ids)
  }

  function Publish(db: Db, date: int): Result<Db, LifecycleError> { PublishAll(db, Due(db, date)) }

  function Hold(db: Db, v: string): Result<Db, LifecycleError> {
    if v !in db.versions then Err(NotFound)
    else if !CanMove(db.versions[v].status, Rejected) then Err(InvalidTransition(db.versions[v].status, Rejected))
    else Ok(SetStatus(db, v, Rejected))
  }

  /** A stored submission against a version that is being served. */
  function Submit(db: Db, id: string, v: string): Result<Db, LifecycleError> {
    if v !in db.versions || db.versions[v].status != Published then Err(NotPublished)
    else if id in db.attempts then Err(UniqueViolation)
    else Ok(db.(attempts := db.attempts[id := AttemptRow(v, true, None)]))
  }

  // ------------------------------------------------------- the operations

  /** The rows that an update statement changed. */
  function ChangedAttempts(before: map<string, AttemptRow>, after: map<string, AttemptRow>): set<string> {
    set a | a in after && a in before && after[a] != before[a]
  }

  function ChangedSlots(before: seq<Slot>, after: seq<Slot>): set<nat> {
    set i: nat | i < |before| && i < |after| && after[i] != before[i]
  }

  lemma InvalidateChanges(db: Db, v: string, replacement: Option<string>)
    ensures ChangedAttempts(db.attempts, Invalidate(db, v, replacement).attempts)
      == set a | a in db.attempts && Stale(db.attempts[a], v)
  {
  }

  /** The database behind `prisma`, updated statement by statement; a failed transaction rolls back. */
  class Store {
    var versions: map<string, Version>
    var spots: map<string, Spot>
    var slots: seq<Slot>
    var attempts: map<string, AttemptRow>

    function Snapshot(): Db reads this { Db(versions, spots, slots, attempts) }

    constructor ()
      ensures Snapshot() == Empty()
    {
      versions, spots, slots, attempts := map[], map[], [], map[];
    }

    method Rollback(db: Db)
      modifies this
      ensures Snapshot() == db
    {
      versions, spots, slots, attempts := db.versions, db.spots, db.slots, db.attempts;
    }

    /** `tx.spot.update` to a new current version. */
    method UpdateCurrent(v: string, status: SpotStatus) returns (e: Option<LifecycleError>)
      requires v in versions
      modifies this`spots
      ensures match MakeCurrent(old(Snapshot()), v, status)
        case Ok(db) => e == None && Snapshot() == db
        case Err(x) => e == Some(x) && Snapshot() == old(Snapshot())
    {
      var spotId := versions[v].spotId;
      if spotId !in spots {
        return Some(NotFound);
      }
      if exists x :: x in spots && x != spotId && spots[x].current == Some(v) {
        return Some(UniqueViolation);
      }
      spots := spots[spotId := Spot(status, Some(v))];
      return None;
    }

    method ApproveSpotVersion(v: string) returns (r: Result<(), LifecycleError>)
      modifies this
      ensures match Approve(old(Snapshot()), v)
        case Ok(db) => r.Ok? && Snapshot() == db
        case Err(e) => r == Err(e) && Snapshot() == old(Snapshot())
    {
      var begin := Snapshot();
      if v !in versions {
        return Err(NotFound);
      }
      if !CanMove(versions[v].status, Approved) {
        return Err(InvalidTransition(versions[v].status, Approved));
      }
      versions := versions[v := versions[v].(status := Approved)];
      var e := UpdateCurrent(v, SpotApproved);
      if e.Some? {
        Rollback(begin);
        return Err(e.value);
      }
      return Ok(());
    }

    method ScheduleSpotVersion(v: string, date: int, order: int) returns (r: Result<nat, LifecycleError>)
      modifies this
      ensures match Schedule(old(Snapshot()), v, date, order)
        case Ok(db) => r == Ok(old(|slots|)) && Snapshot() == db
        case Err(e) => r == Err(e) && Snapshot() == old(Snapshot())
    {
      if order < 1 {
        return Err(InvalidSlot);
      }
      if v !in versions {
        return Err(NotFound);
      }
      if !CanMove(versions[v].status, Scheduled) {
        return Err(InvalidTransition(versions[v].status, Scheduled));
      }
      if SlotClash(Snapshot(), date, order, v) {
        return Err(UniqueViolation);
      }
      var id := |slots|;
      slots := slots + [Slot(date, order, v, SlotScheduled)];
      versions := versions[v := versions[v].(status := Scheduled)];
      return Ok(id);
    }

    /** Returns the new slot, the status of the old one, and the number of invalidated attempts. */
    method ReplacePublishedSlot(prev: string, next: string, invalidate: bool)
      returns (r: Result<Replaced, LifecycleError>)
      modifies this
      ensures match Replace(old(Snapshot()), prev, next, invalidate)
        case Ok(db) =>
          && FindActive(old(Snapshot()), prev, old(|slots|)).Some?
          && r == Ok(Replaced(
            old(|slots|), old(slots)[FindActive(old(Snapshot()), prev, old(|slots|)).value].status,
            if invalidate then |old(StaleAttempts(prev))| else 0))
          && Snapshot() == db
        case Err(e) => r == Err(e) && Snapshot() == old(Snapshot())
      ensures r.Ok? ==> r.value.invalidatedAttempts == |ChangedAttempts(old(attempts), attempts)|
    {
      if prev == next {
        return Err(SameVersion);
      }
      var begin := Snapshot();
      if prev !in versions || next !in versions {
        return Err(NotFound);
      }
      var oldVersion, newVersion := versions[prev], versions[next];
      if oldVersion.status != Scheduled && oldVersion.status != Published {
        return Err(OldNotActive);
      }
      if newVersion.status != Approved {
        return Err(NewNotApproved);
      }
      var found := FindActive(Snapshot(), prev, |slots|);
      if found.None? {
        return Err(NoActiveSlot);
      }
      var i := found.value;
      var oldSlot := slots[i];
      slots := slots[i := oldSlot.(status := SlotCancelled)];
      versions := versions[prev := oldVersion.(status := Superseded)];
      if oldVersion.spotId != newVersion.spotId {
        if oldVersion.spotId !in spots {
          Rollback(begin);
          return Err(NotFound);
        }
        if spots[oldVersion.spotId].current == Some(prev) {
          spots := spots[oldVersion.spotId := Spot(SpotArchived, None)];
        }
      }
      var invalidated := 0;
      assert ChangedAttempts(attempts, attempts) == {};
      if invalidate {
        invalidated := |StaleAttempts(prev)|;
        InvalidateChanges(Snapshot(), prev, Some(next));
        attempts := Invalidate(Snapshot(), prev, Some(next)).attempts;
      }
      if SlotClash(Snapshot(), oldSlot.date, oldSlot.order, next) {
        Rollback(begin);
        return Err(UniqueViolation);
      }
      var id := |slots|;
      slots := slots + [Slot(oldSlot.date, oldSlot.order, next, SlotScheduled)];
      versions := versions[next := newVersion.(status := Scheduled)];
      return Ok(Replaced(id, oldSlot.status, invalidated));
    }

    function StaleAttempts(v: string): set<string>
      reads this
    {
      set a | a in attempts && Stale(attempts[a], v)
    }

    function ActiveSlots(v: string): set<nat>
      reads this
    {
      set i: nat | i < |slots| && slots[i].versionId == v && Active(slots[i].status)
    }

    /** Returns the numbers of cancelled slots and of invalidated attempts. */
    method QuarantinePublishedVersion(v: string, blankReason: bool) returns (r: Result<(nat, nat), LifecycleError>)
      modifies this
      ensures match Quarantine(old(Snapshot()), v, blankReason)
        case Ok(db) => r == Ok((|old(ActiveSlots(v))|, |old(StaleAttempts(v))|)) && Snapshot() == db
        case Err(e) => r == Err(e) && Snapshot() == old(Snapshot())
      ensures r.Ok? ==> r.value.0 == |ChangedSlots(old(slots), slots)|
      ensures r.Ok? ==> r.value.1 == |ChangedAttempts(old(attempts), attempts)|
    {
      if blankReason {
        return Err(BlankReason);
      }
      var begin := Snapshot();
      if v !in versions {
        return Err(NotFound);
      }
      if versions[v].status != Published {
        return Err(NotPublished);
      }
      var cancelled := |ActiveSlots(v)|;
      slots := CancelAll(slots, v);
      versions := versions[v := versions[v].(status := Superseded)];
      var invalidated := |StaleAttempts(v)|;
      InvalidateChanges(Snapshot(), v, None);
      attempts := Invalidate(Snapshot(), v, None).attempts;
      var spotId := versions[v].spotId;
      if spotId !in spots {
        Rollback(begin);
        return Err(NotFound);
      }
      if spots[spotId].current == Some(v) {
        spots := spots[spotId := Spot(SpotArchived, None)];
      }
      assert ChangedSlots(begin.slots, slots) == old(ActiveSlots(v));
      return Ok((cancelled, invalidated));
    }

    /** One pass of the publication loop; the caller rolls back on an error. */
    method PublishSlot(i: nat) returns (e: Option<LifecycleError>)
      requires i < |slots|
      modifies this
      ensures match PublishOne(old(Snapshot()), i)
        case Ok(db) => e == None && Snapshot() == db
        case Err(x) => e == Some(x)
    {
      var slot := slots[i];
      var v := slot.versionId;
      if v !in versions {
        return Some(NotFound);
      }
      if !CanMove(versions[v].status, Published) {
        return Some(InvalidTransition(versions[v].status, Published));
      }
      versions := versions[v := versions[v].(status := Published)];
      e := UpdateCurrent(v, SpotPublished);
      if e.None? {
        slots := slots[i := slot.(status := SlotPublished)];
      }
    }

    /** The publication loop over the slots of a day. */
    method PublishSlots(due: seq<nat>) returns (e: Option<LifecycleError>)
      requires forall k :: 0 <= k < |due| ==> due[k] < |slots|
      modifies this
      ensures match PublishAll(old(Snapshot()), due)
        case Ok(db) => e == None && Snapshot() == db
        case Err(x) => e == Some(x)
    {
      ghost var begin := Snapshot();
      e := None;
      for k := 0 to |due|
        invariant |slots| == |begin.slots|
        invariant PublishAll(begin, due[..k]) == Ok(Snapshot())
      {
        PublishAllStep(begin, due, k);
        e := PublishSlot(due[k]);
        if e.Some? {
          PublishAllStops(begin, due, k + 1);
          return;
        }
      }
      e := None;
      assert due[..|due|] == due;
    }

    /** Returns the published slots in slot order. */
    method PublishPacificDate(date: int) returns (r: Result<seq<nat>, LifecycleError>)
      modifies this
      ensures match Publish(old(Snapshot()), date)
        case Ok(db) => r == Ok(Due(old(Snapshot()), date)) && Snapshot() == db
        case Err(e) => r == Err(e) && Snapshot() == old(Snapshot())
    {
      var begin := Snapshot();
      var due := Due(begin, date);
      var e := PublishSlots(due);
      if e.Some? {
        Rollback(begin);
        return Err(e.value);
      }
      return Ok(due);
    }

    method HoldVersion(v: string) returns (r: Result<(), LifecycleError>)
      modifies this
      ensures match Hold(old(Snapshot()), v)
        case Ok(db) => r.Ok? && Snapshot() == db
        case Err(e) => r == Err(e) && Snapshot() == old(Snapshot())
    {
      if v !in versions {
        return Err(NotFound);
      }
      if !CanMove(versions[v].status, Rejected) {
        return Err(InvalidTransition(versions[v].status, Rejected));
      }
      versions := versions[v := versions[v].(status := Rejected)];
      return Ok(());
    }
  }

  lemma PublishAllStep(db: Db, ids: seq<nat>, k: nat)
    requires k < |ids| && forall i :: 0 <= i < |ids| ==> ids[i] < |db.slots|
    requires PublishAll(db, ids[..k]).Ok?
    ensures PublishAll(db, ids[..k + 1]) == PublishOne(PublishAll(db, ids[..k]).value, ids[k])
  {
    assert ids[..k + 1][..k] == ids[..k];
  }

  /** A failed pass fails the whole transaction. */
  lemma {:induction false} PublishAllStops(db: Db, ids: seq<nat>, k: nat)
    requires k <= |ids| && forall i :: 0 <= i < |ids| ==> ids[i] < |db.slots|
    requires PublishAll(db, ids[..k]).Err?
    ensures PublishAll(db, ids) == PublishAll(db, ids[..k])
    decreases |ids|
  {
    if k == |ids| {
      assert ids[..k] == ids;
    } else {
      var last := |ids| - 1;
      assert ids[..last][..k] == ids[..k];
      PublishAllStops(db, ids[..last], k);
    }
  }

  // ----------------------------------------------------------------- runs

  function Empty(): Db { Db(map[], map[], [], map[]) }

  datatype Command =
    | DoImport(v: string, spotId: string)
    | DoApprove(v: string)
    | DoSchedule(v: string, date: int, order: int)
    | DoReplace(prev: string, next: string, invalidate: bool)
    | DoQuarantine(v: string, blankReason: bool)
    | DoPublish(date: int)
    | DoHold(v: string)
    | DoSubmit(id: string, v: string)

  function Apply(db: Db, c: Command): Result<Db, LifecycleError> {
    match c
    case DoImport(v, spotId) => Import(db, v, spotId)
    case DoApprove(v) => Approve(db, v)
    case DoSchedule(v, date, order) => Schedule(db, v, date, order)
    case DoReplace(prev, next, invalidate) => Replace(db, prev, next, invalidate)
    case DoQuarantine(v, blankReason) => Quarantine(db, v, blankReason)
    case DoPublish(date) => Publish(db, date)
    case DoHold(v) => Hold(db, v)
    case DoSubmit(id, v) => Submit(db, id, v)
  }

  /** A rejected command leaves no trace. */
  function After(db: Db, c: Command): Db {
    match Apply(db, c) case Ok(after) => after case Err(_) => db
  }

  function Run(commands: seq<Command>): Db {
    if commands == [] then Empty()
    else After(Run(commands[..|commands| - 1]), commands[|commands| - 1])
  }
}
