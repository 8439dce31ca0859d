/**
 * What a visitor is told about a day (src/application/public-api.ts:124-151) and about a range
 * of days (196-213), over the published slots of the lifecycle and the attempt table. Dates are
 * calendar days; a slot stands for the spot of its version.
 */
module Progress {
  import opened Common
  import opened Sorting
  import opened Grouping
  import L = Lifecycle
  import LT = LifecycleTheorems
  import P = AttemptProtocol
  import PT = AttemptTheorems

  // ------------------------------------------------------------------ data

  /** A row of the attempt table, as far as progress reads it. */
  datatype Scored = Scored(owner: P.Owner, versionId: string, official: bool, valid: bool, points: int)

  /** The unique index on official attempts. */
  ghost predicate OneOfficial(t: seq<Scored>) {
    forall i, j :: 0 <= i < j < |t| && t[i].official && t[j].official && t[i].owner == t[j].owner ==>
      t[i].versionId != t[j].versionId
  }

  /** The unique indexes on active slots, for the published ones. */
  ghost predicate OneSlot(slots: seq<L.Slot>) {
    forall i, j :: 0 <= i < j < |slots| && slots[i].status == L.SlotPublished && slots[j].status == L.SlotPublished ==>
      slots[i].versionId != slots[j].versionId && !(slots[i].date == slots[j].date && slots[i].order == slots[j].order)
  }

  /** Every run of the lifecycle, whatever it approves, leaves one slot a version and one a place. */
  lemma LifecycleHasOneSlot(commands: seq<L.Command>)
    ensures OneSlot(L.Run(commands).slots)
  {
    LT.RunsKeepInv(commands);
    var db := L.Run(commands);
    forall i, j | 0 <= i < j < |db.slots| && db.slots[i].status == L.SlotPublished
      && db.slots[j].status == L.SlotPublished
      ensures db.slots[i].versionId != db.slots[j].versionId
      ensures !(db.slots[i].date == db.slots[j].date && db.slots[i].order == db.slots[j].order)
    {
      assert LT.Apart(db, i, j);
      assert L.IsActive(db, i) && L.IsActive(db, j);
    }
  }

  /** The rows of an attempt table, with the validity and the points of each attempt. */
  function ScoredRows(t: P.Table, valid: string -> bool, points: string -> int): seq<Scored> {
    seq(|t|, i requires 0 <= i < |t| => Scored(t[i].owner, t[i].version, t[i].official, valid(t[i].id),
      points(t[i].id)))
  }

  /** Every run of the submission protocol leaves one official attempt an owner and version at most. */
  lemma ProtocolHasOneOfficial(w: P.World, steps: seq<P.Step>, valid: string -> bool, points: string -> int)
    requires P.ValidWorld(w) && P.Run(w, steps).Some?
    ensures OneOfficial(ScoredRows(P.Run(w, steps).value.table, valid, points))
  {
    var t := P.Run(w, steps).value.table;
    PT.RunKeepsInv(w, steps);
    forall i, j | 0 <= i < j < |t| && t[i].official && t[j].official && t[i].owner == t[j].owner
      ensures t[i].version != t[j].version
    {
      assert P.IsSequentialAt(t, j);
      assert P.Group(t[..j], t[j].owner, t[j].version) == [];
      assert !P.Mine(t[..j][i], t[j].owner, t[j].version);
    }
  }

  // --------------------------------------------------------------- queries

  function OnDate(date: int): L.Slot -> bool { (s: L.Slot) => s.status == L.SlotPublished && s.date == date }

  function Within(
      from: int, to: int): L.Slot -> bool { (s: L.Slot) => s.status == L.SlotPublished && from <= s.date <= to }

  function ByDate(): L.Slot -> int { (s: L.Slot) => s.date }

  function ByOrder(): (L.Slot, L.Slot) -> bool { (a: L.Slot, b: L.Slot) => a.order <= b.order }

  function ByDateAndOrder(): (L.Slot, L.Slot) -> bool {
    (a: L.Slot, b: L.Slot) => a.date < b.date || (a.date == b.date && a.order <= b.order)
  }

  /** `slotsFor`: the published slots of a date, by order. */
  function SlotsFor(slots: seq<L.Slot>, date: int): seq<L.Slot> { Sort(ByOrder(), Bucket(slots, OnDate(date), true)) }

  function SlotsWithin(slots: seq<L.Slot>, from: int, to: int): seq<L.Slot> {
    Sort(ByDateAndOrder(), Bucket(slots, Within(from, to), true))
  }

  function Answers(owner: P.Owner, versions: set<string>): Scored -> bool {
    (a: Scored) => a.owner == owner && a.official && a.valid && a.versionId in versions
  }

  /** The valid official attempts of an owner on some versions. */
  function Officials(t: seq<Scored>, owner: P.Owner, versions: set<string>): seq<Scored> {
    Bucket(t, Answers(owner, versions), true)
  }

  function VersionsOf(slots: seq<L.Slot>): set<string> { set s | s in slots :: s.versionId }

  /** The keys of the map from versions to attempts. */
  function Keys(rows: seq<Scored>): set<string> { set a | a in rows :: a.versionId }

  function PointsOf(rows: seq<Scored>): int {
    if rows == [] then 0 else PointsOf(rows[..|rows| - 1]) + rows[|rows| - 1].points
  }

  // -------------------------------------------------------------- progress

  datatype Status = NotStarted | InProgress | Completed

  datatype Report = Report(
      completedSpots: nat, totalSpots: nat, status: Status, next: Option<L.Slot>, scorePoints: int,
      maximumScorePoints: nat)

  /** `find`: the first slot without a key in the map. */
  function FirstMissing(slots: seq<L.Slot>, keys: set<string>): Option<L.Slot> {
    if slots == [] then None
    else if slots[0].versionId !in keys then Some(slots[0])
    else FirstMissing(slots[1..], keys)
  }

  function ProgressFor(slots: seq<L.Slot>, t: seq<Scored>, owner: P.Owner, date: int): Report {
    var published := SlotsFor(slots, date);
    var attempts := if published == [] then [] else Officials(t, owner, VersionsOf(published));
    var completed, total := |Keys(attempts)|, |published|;
    Report(completed, total,
           if completed == 0 then NotStarted else if completed == total then Completed else InProgress,
           FirstMissing(published, Keys(attempts)), PointsOf(attempts), total * 1000)
  }

  // ------------------------------------------------ what the numbers mean

  /** The owner has a valid official attempt on the version, worth this many points. */
  predicate Done(t: seq<Scored>, owner: P.Owner, v: string) { Officials(t, owner, {v}) != [] }

  function Earned(t: seq<Scored>, owner: P.Owner, v: string): int { PointsOf(Officials(t, owner, {v})) }

  function DoneCount(slots: seq<L.Slot>, t: seq<Scored>, owner: P.Owner): nat {
    if slots == [] then 0
    else DoneCount(slots[..|slots| - 1], t, owner) + if Done(t, owner, slots[|slots| - 1].versionId) then 1 else 0
  }

  function EarnedTotal(slots: seq<L.Slot>, t: seq<Scored>, owner: P.Owner): int {
    if slots == [] then 0
      else EarnedTotal(slots[..|slots| - 1], t, owner) + Earned(t, owner, slots[|slots| - 1].versionId)
  }

  lemma {:induction false} OfficialsSplit(t: seq<Scored>, owner: P.Owner, versions: set<string>, v: string)
    requires v !in versions
    ensures |Officials(t, owner, versions + {v})| == |Officials(t, owner, versions)| + |Officials(t, owner, {v})|
    ensures PointsOf(Officials(t, owner, versions + {v}))
      == PointsOf(Officials(t, owner, versions)) + Earned(t, owner, v)
  {
    if t != [] {
      var n := |t| - 1;
      OfficialsSplit(t[..n], owner, versions, v);
      OfficialsLast(t, owner, versions + {v});
      OfficialsLast(t, owner, versions);
      OfficialsLast(t, owner, {v});
    }
  }

  lemma OfficialsLast(t: seq<Scored>, owner: P.Owner, versions: set<string>)
    requires t != []
    ensures var n := |t| - 1;
      var rest := Officials(t[..n], owner, versions);
      && Officials(t, owner, versions) == (if Answers(owner, versions)(t[n]) then rest + [t[n]] else rest)
      && PointsOf(Officials(t, owner, versions))
        == PointsOf(rest) + (if Answers(owner, versions)(t[n]) then t[n].points else 0)
  {
    var n := |t| - 1;
    var rest := Officials(t[..n], owner, versions);
    assert (rest + [t[n]])[..|rest|] == rest;
  }

  lemma OfficialsHold(t: seq<Scored>, owner: P.Owner, versions: set<string>)
    ensures forall a :: a in Officials(t, owner, versions) <==> a in t && Answers(owner, versions)(a)
  {
    BucketHolds(t, Answers(owner, versions), true);
  }

  ghost predicate DistinctRows(rows: seq<Scored>) {
    forall i, j :: 0 <= i < j < |rows| ==> rows[i].versionId != rows[j].versionId
  }

  lemma {:induction false} OfficialsDistinct(t: seq<Scored>, owner: P.Owner, versions: set<string>)
    requires OneOfficial(t)
    ensures DistinctRows(Officials(t, owner, versions))
  {
    if t != [] {
      var n := |t| - 1;
      OfficialsDistinct(t[..n], owner, versions);
      OfficialsLast(t, owner, versions);
      OfficialsHold(t[..n], owner, versions);
      hide Officials;
      var rest := Officials(t[..n], owner, versions);
      if Answers(owner, versions)(t[n]) {
        forall k | 0 <= k < |rest| ensures rest[k].versionId != t[n].versionId {
          assert rest[k] in t[..n];
        }
      }
    }
  }

  lemma {:induction false} KeysCount(rows: seq<Scored>)
    requires DistinctRows(rows)
    ensures |Keys(rows)| == |rows|
  {
    if rows == [] {
      assert Keys(rows) == {};
    } else {
      var n := |rows| - 1;
      KeysCount(rows[..n]);
      assert rows == rows[..n] + [rows[n]];
      assert Keys(rows) == Keys(rows[..n]) + {rows[n].versionId};
    }
  }

  /** With one official attempt an owner and version, each version occurs once among the rows. */
  lemma OneRowEach(t: seq<Scored>, owner: P.Owner, versions: set<string>, v: string)
    requires OneOfficial(t)
    ensures |Keys(Officials(t, owner, versions))| == |Officials(t, owner, versions)|
    ensures |Officials(t, owner, {v})| <= 1
  {
    OfficialsDistinct(t, owner, versions);
    KeysCount(Officials(t, owner, versions));
    OfficialsDistinct(t, owner, {v});
    OfficialsHold(t, owner, {v});
    KeysCount(Officials(t, owner, {v}));
    hide Officials;
    KeysWithin(Officials(t, owner, {v}), v);
  }

  lemma KeysWithin(rows: seq<Scored>, v: string)
    requires forall a :: a in rows ==> a.versionId == v
    ensures |Keys(rows)| <= 1
  {
    if rows == [] {
      assert Keys(rows) == {};
    } else {
      assert rows[0] in rows;
      assert Keys(rows) == {v};
    }
  }

  ghost predicate DistinctVersions(slots: seq<L.Slot>) {
    forall i, j :: 0 <= i < j < |slots| ==> slots[i].versionId != slots[j].versionId
  }

  /** One query over all versions adds up to one query a version. */
  lemma {:induction false} OfficialsTally(slots: seq<L.Slot>, t: seq<Scored>, owner: P.Owner)
    requires OneOfficial(t) && DistinctVersions(slots)
    ensures |Officials(t, owner, VersionsOf(slots))| == DoneCount(slots, t, owner)
    ensures PointsOf(Officials(t, owner, VersionsOf(slots))) == EarnedTotal(slots, t, owner)
  {
    if slots == [] {
      assert VersionsOf(slots) == {};
      OfficialsHold(t, owner, {});
      var rows := Officials(t, owner, {});
      SomeMember(rows);
    } else {
      var n := |slots| - 1;
      var rest, v := slots[..n], slots[n].versionId;
      OfficialsTally(rest, t, owner);
      assert slots == rest + [slots[n]];
      assert VersionsOf(slots) == VersionsOf(rest) + {v};
      assert v !in VersionsOf(rest);
      OfficialsSplit(t, owner, VersionsOf(rest), v);
      OneRowEach(t, owner, {}, v);
    }
  }

  lemma KeysAreDone(t: seq<Scored>, owner: P.Owner, versions: set<string>, v: string)
    ensures v in Keys(Officials(t, owner, versions)) <==> v in versions && Done(t, owner, v)
  {
    OfficialsHold(t, owner, versions);
    OfficialsHold(t, owner, {v});
    var one := Officials(t, owner, {v});
    if one != [] {
      assert one[0] in one;
    }
    if v in Keys(Officials(t, owner, versions)) {
      var a :| a in Officials(t, owner, versions) && a.versionId == v;
      assert a in one;
    }
  }

  /** The attempt counts for the owner on the version: official, still valid, the owner's own. */
  predicate CountsFor(a: Scored, owner: P.Owner, v: string) {
    a.owner == owner && a.versionId == v && a.official && a.valid
  }

  /** What an answered slot is: one such attempt, and its points are those earned; without one, nothing. */
  lemma DoneMeans(t: seq<Scored>, owner: P.Owner, v: string)
    requires OneOfficial(t)
    ensures Done(t, owner, v) <==> exists i :: 0 <= i < |t| && CountsFor(t[i], owner, v)
    ensures forall i :: 0 <= i < |t| && CountsFor(t[i], owner, v) ==> Earned(t, owner, v) == t[i].points
    ensures !Done(t, owner, v) ==> Earned(t, owner, v) == 0
  {
    var rows := Officials(t, owner, {v});
    OfficialsHold(t, owner, {v});
    OneRowEach(t, owner, {}, v);
    if rows != [] {
      assert rows == [rows[0]] && rows[0] in rows;
      var i :| 0 <= i < |t| && t[i] == rows[0];
      assert CountsFor(t[i], owner, v);
    }
    forall i | 0 <= i < |t| && CountsFor(t[i], owner, v) ensures t[i] in rows {
      assert t[i] in t && Answers(owner, {v})(t[i]);
    }
    assert rows != [] ==> PointsOf(rows) == PointsOf([]) + rows[0].points;
  }

  /** The published slots of a date, each once, in ascending order. */
  lemma SlotsForAre(slots: seq<L.Slot>, date: int)
    requires OneSlot(slots)
    ensures var s := SlotsFor(slots, date);
      && (forall x :: x in s <==> x in slots && x.status == L.SlotPublished && x.date == date)
      && DistinctVersions(s)
      && forall i, j :: 0 <= i < j < |s| ==> s[i].order < s[j].order
  {
    var found := Bucket(slots, OnDate(date), true);
    var s := SlotsFor(slots, date);
    BucketHolds(slots, OnDate(date), true);
    DistinctBucket(slots, date);
    assert TotalPreorder(ByOrder());
    SortPermutes(ByOrder(), found);
    SortSorted(ByOrder(), found);
    DistinctPermutation(found, s);
    forall i, j | 0 <= i < j < |s| ensures s[i].versionId != s[j].versionId && s[i].order < s[j].order {
      assert s[i] in slots && s[j] in slots && s[i] != s[j];
      assert ByOrder()(s[i], s[j]);
    }
  }

  lemma {:induction false} DistinctBucket(slots: seq<L.Slot>, date: int)
    requires OneSlot(slots)
    ensures Distinct(Bucket(slots, OnDate(date), true))
  {
    if slots != [] {
      var n := |slots| - 1;
      DistinctBucket(slots[..n], date);
      BucketHolds(slots[..n], OnDate(date), true);
    }
  }

  lemma {:induction false} FirstMissingMeaning(slots: seq<L.Slot>, keys: set<string>)
    ensures match FirstMissing(slots, keys)
      case None => forall s :: s in slots ==> s.versionId in keys
      case Some(x) => exists i ::
        && 0 <= i < |slots| && slots[i] == x && x.versionId !in keys
        && forall j :: 0 <= j < i ==> slots[j].versionId in keys
  {
    if slots != [] && slots[0].versionId in keys {
      FirstMissingMeaning(slots[1..], keys);
      if FirstMissing(slots[1..], keys).Some? {
        var i :| 0 <= i < |slots| - 1 && slots[1..][i] == FirstMissing(slots[1..], keys).value
          && forall j :: 0 <= j < i ==> slots[1..][j].versionId in keys;
        assert slots[i + 1] == FirstMissing(slots, keys).value;
        forall j | 0 <= j < i + 1 ensures slots[j].versionId in keys {
          assert j > 0 ==> slots[j] == slots[1..][j - 1];
        }
      }
    }
  }

  lemma {:induction false} DoneCountBounds(slots: seq<L.Slot>, t: seq<Scored>, owner: P.Owner)
    ensures DoneCount(slots, t, owner) <= |slots|
    ensures DoneCount(slots, t, owner) == |slots| <==> forall s :: s in slots ==> Done(t, owner, s.versionId)
  {
    if slots != [] {
      var n := |slots| - 1;
      DoneCountBounds(slots[..n], t, owner);
      assert slots == slots[..n] + [slots[n]];
    }
  }

  /** What the report counts: slots answered, points earned on them, and the earliest slot still open. */
  lemma ProgressMeaning(slots: seq<L.Slot>, t: seq<Scored>, owner: P.Owner, date: int)
    requires OneSlot(slots) && OneOfficial(t)
    ensures var r, published := ProgressFor(slots, t, owner, date), SlotsFor(slots, date);
      && r.completedSpots == DoneCount(published, t, owner) <= r.totalSpots == |published|
      && r.scorePoints == EarnedTotal(published, t, owner) && r.maximumScorePoints == 1000 * |published|
      && (r.next.None? <==> forall s :: s in published ==> Done(t, owner, s.versionId))
      && (r.next.Some? ==>
            && r.next.value in published && !Done(t, owner, r.next.value.versionId)
            && forall s :: s in published && s.order < r.next.value.order ==> Done(t, owner, s.versionId))
  {
    var published := SlotsFor(slots, date);
    var rows := Officials(t, owner, VersionsOf(published));
    SlotsForAre(slots, date);
    OfficialsTally(published, t, owner);
    OneRowEach(t, owner, VersionsOf(published), "");
    DoneCountBounds(published, t, owner);
    assert published == [] ==> rows == [] && Keys([]) == {};
    FirstMissingMeaning(published, Keys(rows));
    forall s | s in published ensures s.versionId in Keys(rows) <==> Done(t, owner, s.versionId) {
      KeysAreDone(t, owner, VersionsOf(published), s.versionId);
    }
  }

  /** On a day with slots: completed, nothing next, and all counted are the same thing. */
  lemma CompletedMeansNothingNext(slots: seq<L.Slot>, t: seq<Scored>, owner: P.Owner, date: int)
    requires OneSlot(slots) && OneOfficial(t) && SlotsFor(slots, date) != []
    ensures var r := ProgressFor(slots, t, owner, date);
      && (r.status == Completed <==> r.next.None?)
      && (r.next.None? <==> r.completedSpots == r.totalSpots)
      && (r.status == NotStarted <==> forall s :: s in SlotsFor(slots, date) ==> !Done(t, owner, s.versionId))
  {
    ProgressMeaning(slots, t, owner, date);
    DoneCountBounds(SlotsFor(slots, date), t, owner);
    NoneDone(SlotsFor(slots, date), t, owner);
  }

  lemma {:induction false} NoneDone(slots: seq<L.Slot>, t: seq<Scored>, owner: P.Owner)
    ensures DoneCount(slots, t, owner) == 0 <==> forall s :: s in slots ==> !Done(t, owner, s.versionId)
  {
    if slots != [] {
      var n := |slots| - 1;
      NoneDone(slots[..n], t, owner);
      assert slots == slots[..n] + [slots[n]];
    }
  }

  /** The score lies between 0 and the maximum shown. */
  lemma ScoreWithinMaximum(slots: seq<L.Slot>, t: seq<Scored>, owner: P.Owner, date: int)
    requires OneSlot(slots) && OneOfficial(t) && forall a :: a in t ==> 0 <= a.points <= 1000
    ensures var r := ProgressFor(slots, t, owner, date); 0 <= r.scorePoints <= r.maximumScorePoints
  {
    ProgressMeaning(slots, t, owner, date);
    EarnedBounds(SlotsFor(slots, date), t, owner);
  }

  lemma {:induction false} EarnedBounds(slots: seq<L.Slot>, t: seq<Scored>, owner: P.Owner)
    requires OneOfficial(t) && forall a :: a in t ==> 0 <= a.points <= 1000
    ensures 0 <= EarnedTotal(slots, t, owner) <= 1000 * |slots|
  {
    if slots != [] {
      var n := |slots| - 1;
      EarnedBounds(slots[..n], t, owner);
      var v := slots[n].versionId;
      OneRowEach(t, owner, {}, v);
      OfficialsHold(t, owner, {v});
      var rows := Officials(t, owner, {v});
      assert rows == [] || rows == [rows[0]];
      assert rows != [] ==> rows[0] in rows && PointsOf(rows) == PointsOf([]) + rows[0].points;
    }
  }

  // ----------------------------------------------------------- date ranges

  datatype Row = Row(
      date: int, spotCount: nat, completedSpots: nat, completed: bool, officialScorePoints: int,
      maximumScorePoints: nat)

  datatype RangeError = BadRange

  /** The map from versions to points: a later row overwrites an earlier one. */
  function PointsMap(rows: seq<Scored>): map<string, int> {
    if rows == [] then map[] else PointsMap(rows[..|rows| - 1])[rows[|rows| - 1].versionId := rows[|rows| - 1].points]
  }

  function Held(slots: seq<L.Slot>, points: map<string, int>): nat {
    if slots == [] then 0 else Held(slots[..|slots| - 1], points) + if slots[|slots| - 1].versionId in points then 1
      else 0
  }

  function HeldPoints(slots: seq<L.Slot>, points: map<string, int>): int {
    if slots == [] then 0
    else
      var v := slots[|slots| - 1].versionId;
      HeldPoints(slots[..|slots| - 1], points) + if v in points then points[v] else 0
  }

  function RowOf(date: int, game: seq<L.Slot>, points: map<string, int>): Row {
    var completed := Held(game, points);
    Row(date, |game|, completed, completed == |game|, HeldPoints(game, points), |game| * 1000)
  }

  /** What the report of a single day says, in the form of a row. */
  function RowOfReport(date: int, r: Report): Row {
    Row(date, r.totalSpots, r.completedSpots, r.status == Completed, r.scorePoints, r.maximumScorePoints)
  }

  lemma {:induction false} PointsMapIs(t: seq<Scored>, owner: P.Owner, versions: set<string>, v: string)
    requires OneOfficial(t) && v in versions
    ensures var m := PointsMap(Officials(t, owner, versions));
      && (v in m <==> Done(t, owner, v))
      && (v in m ==> m[v] == Earned(t, owner, v))
      && (v !in m ==> Earned(t, owner, v) == 0)
  {
    if t != [] {
      var n := |t| - 1;
      PointsMapIs(t[..n], owner, versions, v);
      OfficialsLast(t, owner, versions);
      OfficialsLast(t, owner, {v});
      OneRowEach(t, owner, {}, v);
      SingleRow(Officials(t[..n], owner, {v}));
      hide Bucket, PointsMap, PointsOf, Officials, OneOfficial;
    }
  }

  lemma SingleRow(rows: seq<Scored>)
    ensures |rows| == 0 ==> PointsOf(rows) == 0
  {
  }

  lemma {:induction false} HeldIsDone(game: seq<L.Slot>, t: seq<Scored>, owner: P.Owner, versions: set<string>)
    requires OneOfficial(t) && forall s :: s in game ==> s.versionId in versions
    ensures var m := PointsMap(Officials(t, owner, versions));
      Held(game, m) == DoneCount(game, t, owner) && HeldPoints(game, m) == EarnedTotal(game, t, owner)
  {
    if game != [] {
      var n := |game| - 1;
      HeldIsDone(game[..n], t, owner, versions);
      PointsMapIs(t, owner, versions, game[n].versionId);
    }
  }

  lemma {:induction false} TallyConcat(a: seq<L.Slot>, b: seq<L.Slot>, t: seq<Scored>, owner: P.Owner)
    ensures DoneCount(a + b, t, owner) == DoneCount(a, t, owner) + DoneCount(b, t, owner)
    ensures EarnedTotal(a + b, t, owner) == EarnedTotal(a, t, owner) + EarnedTotal(b, t, owner)
  {
    if b == [] {
      assert a + b == a;
    } else {
      var n := |b| - 1;
      TallyConcat(a, b[..n], t, owner);
      assert (a + b)[..|a + b| - 1] == a + b[..n];
    }
  }

  lemma TallyInsert(a: seq<L.Slot>, x: L.Slot, b: seq<L.Slot>, t: seq<Scored>, owner: P.Owner)
    ensures DoneCount(a + [x] + b, t, owner) == DoneCount(a + b, t, owner) + if Done(t, owner, x.versionId) then 1
      else 0
    ensures EarnedTotal(a + [x] + b, t, owner) == EarnedTotal(a + b, t, owner) + Earned(t, owner, x.versionId)
  {
    TallyConcat(a, b, t, owner);
    TallyConcat(a, [x], t, owner);
    TallyConcat(a + [x], b, t, owner);
    assert [x][..0] == [];
    hide Done, Earned;
  }

  /** The tallies do not depend on the order of the slots. */
  lemma {:induction false} TallyPermutes(a: seq<L.Slot>, b: seq<L.Slot>, t: seq<Scored>, owner: P.Owner)
    requires multiset(a) == multiset(b)
    ensures DoneCount(a, t, owner) == DoneCount(b, t, owner) && EarnedTotal(a, t, owner) == EarnedTotal(b, t, owner)
  {
    assert |a| == |multiset(a)| == |multiset(b)| == |b|;
    if a != [] {
      var n := |a| - 1;
      var p, q := AroundLast(a, b);
      TallyPermutes(a[..n], p + q, t, owner);
      TallyInsert(p, a[n], q, t, owner);
    }
  }

  lemma {:induction false} BucketOfBucket(slots: seq<L.Slot>, from: int, to: int, date: int)
    ensures Bucket(Bucket(slots, Within(from, to), true), ByDate(), date)
      == if from <= date <= to then Bucket(slots, OnDate(date), true) else []
  {
    if slots != [] {
      var n := |slots| - 1;
      var x, within := slots[n], Bucket(slots[..n], Within(from, to), true);
      BucketOfBucket(slots[..n], from, to, date);
      assert slots[..n + 1] == slots;
      BucketStep(slots, Within(from, to), n, true);
      BucketStep(slots, OnDate(date), n, true);
      BucketConcat(within, [x], ByDate(), date);
      hide Bucket;
      if !Within(from, to)(x) {
        assert Bucket(slots, Within(from, to), true) == within;
      }
    }
  }

  /** A day's group within the range holds the same slots as the day's own query. */
  lemma GroupIsTheDay(slots: seq<L.Slot>, from: int, to: int, date: int)
    requires from <= date <= to
    ensures multiset(Bucket(SlotsWithin(slots, from, to), ByDate(), date)) == multiset(SlotsFor(slots, date))
  {
    var found := Bucket(slots, Within(from, to), true);
    SortPermutes(ByDateAndOrder(), found);
    SortPermutes(ByOrder(), Bucket(slots, OnDate(date), true));
    BucketPermutes(SlotsWithin(slots, from, to), found, ByDate(), date);
    BucketOfBucket(slots, from, to, date);
  }

  /** A row of the range says what the report of that day says. */
  lemma RowIsReport(slots: seq<L.Slot>, t: seq<Scored>, owner: P.Owner, from: int, to: int, date: int)
    requires OneSlot(slots) && OneOfficial(t) && from <= date <= to
    requires Bucket(SlotsWithin(slots, from, to), ByDate(), date) != []
    ensures var within := SlotsWithin(slots, from, to);
      RowOf(date, Bucket(within, ByDate(), date), PointsMap(Officials(t, owner, VersionsOf(within))))
      == RowOfReport(date, ProgressFor(slots, t, owner, date))
  {
    var within := SlotsWithin(slots, from, to);
    var game, day := Bucket(within, ByDate(), date), SlotsFor(slots, date);
    GroupIsTheDay(slots, from, to, date);
    assert |game| == |multiset(game)| == |multiset(day)| == |day|;
    BucketHolds(within, ByDate(), date);
    HeldIsDone(game, t, owner, VersionsOf(within));
    TallyPermutes(game, day, t, owner);
    ProgressMeaning(slots, t, owner, date);
    hide ProgressFor, SlotsFor, SlotsWithin;
  }

  predicate HasRow(rows: seq<Row>, date: int) { exists i :: 0 <= i < |rows| && rows[i].date == date }

  /**
   * `getDailyGameRange`: one row for each day of the range with published slots, in order, saying
   * what the day's report says.
   */
  method GetDailyGameRange(slots: seq<L.Slot>, t: seq<Scored>, owner: P.Owner, from: int, to: int)
    returns (r: Result<seq<Row>, RangeError>)
    requires OneSlot(slots) && OneOfficial(t)
    ensures r.Err? <==> from > to || to - from > 93
    ensures r.Ok? ==>
      && (forall i, j :: 0 <= i < j < |r.value| ==> r.value[i].date < r.value[j].date)
      && (forall i :: 0 <= i < |r.value| ==>
        r.value[i] == RowOfReport(r.value[i].date, ProgressFor(slots, t, owner, r.value[i].date)))
      && (forall d :: from <= d <= to && SlotsFor(slots, d) != [] <==> HasRow(r.value, d))
  {
    hide ProgressFor, SlotsFor, SlotsWithin, Officials, PointsMap, RowOf, OneSlot, OneOfficial, Bucket, Precedes,
      Appears;
    if from > to || to - from > 93 {
      return Err(BadRange);
    }
    var within := SlotsWithin(slots, from, to);
    var attempts := if within == [] then [] else Officials(t, owner, VersionsOf(within));
    var byVersion := PointsMap(attempts);
    var order, byDate := GroupBy(within, ByDate());
    DatesOf(slots, from, to);
    var rows: seq<Row> := [];
    for k := 0 to |order|
      invariant |rows| == k
      invariant forall i :: 0 <= i < k ==> rows[i].date == order[i]
      invariant forall i :: 0 <= i < k ==> rows[i] == RowOfReport(order[i], ProgressFor(slots, t, owner, order[i]))
    {
      var date := order[k];
      assert Appears(within, ByDate(), date);
      NonEmptyBucket(within, date);
      RowIsReport(slots, t, owner, from, to, date);
      rows := rows + [RowOf(date, byDate[date], byVersion)];
    }
    forall i, j | 0 <= i < j < |order| ensures order[i] < order[j] {
      assert Precedes(within, ByDate(), order[i], order[j]);
    }
    forall d ensures HasRow(rows, d) <==> d in order {
      if d in order {
        var k :| 0 <= k < |order| && order[k] == d;
        assert rows[k].date == d;
      }
    }
    return Ok(rows);
  }

  lemma NonEmptyBucket(slots: seq<L.Slot>, date: int)
    ensures Appears(slots, ByDate(), date) <==> Bucket(slots, ByDate(), date) != []
    ensures Appears(slots, ByDate(), date) ==> slots != []
  {
    BucketHolds(slots, ByDate(), date);
    var found := Bucket(slots, ByDate(), date);
    if found != [] {
      assert found[0] in found;
    }
    if Appears(slots, ByDate(), date) {
      var i :| 0 <= i < |slots| && slots[i].date == date;
      assert slots[i] in found;
    }
  }

  /** The range query finds slots of the range only, in date order. */
  lemma WithinRange(slots: seq<L.Slot>, from: int, to: int)
    ensures var within := SlotsWithin(slots, from, to);
      && (forall s :: s in within ==> from <= s.date <= to)
      && Sorted(ByDateAndOrder(), within)
  {
    var found := Bucket(slots, Within(from, to), true);
    BucketHolds(slots, Within(from, to), true);
    SortPermutes(ByDateAndOrder(), found);
    SortSorted(ByDateAndOrder(), found);
    hide Bucket, Sort, ByDateAndOrder;
    forall s | s in Sort(ByDateAndOrder(), found) ensures s in found {
      assert s in multiset(Sort(ByDateAndOrder(), found)) && s in multiset(found);
    }
  }

  lemma DayAppears(slots: seq<L.Slot>, from: int, to: int, d: int)
    ensures Appears(SlotsWithin(slots, from, to), ByDate(), d) <==> from <= d <= to && SlotsFor(slots, d) != []
  {
    var within := SlotsWithin(slots, from, to);
    WithinRange(slots, from, to);
    hide SlotsWithin, SlotsFor, Bucket;
    NonEmptyBucket(within, d);
    if from <= d <= to {
      GroupIsTheDay(slots, from, to, d);
      assert |Bucket(within, ByDate(), d)| == |multiset(Bucket(within, ByDate(), d))| == |SlotsFor(slots, d)|;
    }
  }

  /** The range query is in date order and shows exactly the days of the range that have slots. */
  lemma DatesOf(slots: seq<L.Slot>, from: int, to: int)
    ensures var within := SlotsWithin(slots, from, to);
      && (forall d :: Appears(within, ByDate(), d) <==> from <= d <= to && SlotsFor(slots, d) != [])
      && (forall a, b :: Precedes(within, ByDate(), a, b) ==> a <= b)
  {
    var within := SlotsWithin(slots, from, to);
    WithinRange(slots, from, to);
    hide SlotsWithin, SlotsFor;
    forall a, b | Precedes(within, ByDate(), a, b) ensures a <= b {
      var i, j :| 0 <= i < j < |within| && within[i].date == a && within[j].date == b;
      assert ByDateAndOrder()(within[i], within[j]);
    }
    forall d ensures Appears(within, ByDate(), d) <==> from <= d <= to && SlotsFor(slots, d) != [] {
      DayAppears(slots, from, to, d);
    }
  }
}
