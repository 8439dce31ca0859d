/**
 * The host-worker lease protocol (src/solver/host-worker.ts) with the admin actions of
 * src/admin.ts:34-71 and the queueing of src/solver/template.ts:88-104 that touch the same rows.
 * Every call is one atomic step on the job table; a call that throws, or a claim that loses a
 * serialization race, changes nothing. Times are milliseconds.
 */
module Leases {
  import opened Common

  // ------------------------------------------------------------------ data

  datatype JobStatus = Queued | Running | RetryWait | Succeeded | Failed | Held | Cancelled

  datatype Job = Job(
    status: JobStatus, attemptCount: nat, maxAttempts: int, priority: int, createdAt: int, nextAttemptAt: int,
    leaseOwner: Option<string>, leaseExpiresAt: Option<int>, heartbeatAt: Option<int>,
    startedAt: Option<int>, finishedAt: Option<int>, lastError: Option<(string, string)>, successfulRun: Option<string>)

  datatype LeaseError = BadWorker | BadLease | NotOwned | NoSuchJob | ForeignRun

  datatype Claimed = Claimed(id: nat, attemptCount: nat, expires: int)

  /** `retryDelayMs` (src/solver/template.ts:106-109). */
  function RetryDelay(attempt: int): int { if attempt <= 1 then 60000 else 300000 }

  predicate WorkerOk(worker: string) { 0 < |worker| <= 128 }

  predicate LeaseOk(leaseMs: int) { leaseMs >= 1000 }

  /** The `where` of the claim query. */
  predicate Claimable(j: Job, now: int) {
    && j.attemptCount < 3
    && match j.status
       case Queued => j.nextAttemptAt <= now
       case RetryWait => j.nextAttemptAt <= now
       case Running => j.leaseExpiresAt.Some? && j.leaseExpiresAt.value < now
       case _ => false
  }

  /** `orderBy`: priority down, next attempt up, creation up. */
  predicate NoLater(a: Job, b: Job) {
    a.priority > b.priority || (a.priority == b.priority &&
      (a.nextAttemptAt < b.nextAttemptAt || (a.nextAttemptAt == b.nextAttemptAt && a.createdAt <= b.createdAt)))
  }

  /** A row the query may return first; ties are the database's choice. */
  predicate IsPick(jobs: seq<Job>, now: int, i: nat) {
    i < |jobs| && Claimable(jobs[i], now) && forall k :: 0 <= k < |jobs| && Claimable(jobs[k], now) ==>
      NoLater(jobs[i], jobs[k])
  }

  predicate Owns(j: Job, worker: string) { j.status == Running && j.leaseOwner == Some(worker) }

  // ----------------------------------------------------- effects on a row

  function ClaimedJob(j: Job, worker: string, now: int, leaseMs: int): Job {
    j.(status := Running, attemptCount := j.attemptCount + 1, leaseOwner := Some(worker),
      leaseExpiresAt := Some(now + leaseMs), heartbeatAt := Some(now),
      startedAt := if j.startedAt.Some? then j.startedAt else Some(now), lastError := None)
  }

  function HeartbeatJob(j: Job, now: int, leaseMs: int): Job {
    j.(heartbeatAt := Some(now), leaseExpiresAt := Some(now + leaseMs))
  }

  function CompletedJob(j: Job, run: string, now: int): Job {
    j.(status := Succeeded, successfulRun := Some(run), finishedAt := Some(now), leaseOwner := None,
      leaseExpiresAt := None, heartbeatAt := None)
  }

  function FailedJob(j: Job, error: (string, string), now: int): Job {
    var terminal := j.attemptCount >= j.maxAttempts;
    j.(status := if terminal then Failed else RetryWait,
       nextAttemptAt := if terminal then now else now + RetryDelay(j.attemptCount),
       lastError := Some(error), finishedAt := if terminal then Some(now) else None,
       leaseOwner := None, leaseExpiresAt := None, heartbeatAt := None)
  }

  function NewJob(priority: int, now: int): Job {
    Job(Queued, 0, 3, priority, now, now, None, None, None, None, None, None, None)
  }

  // ---------------------------------------------------------------- runs

  datatype Event =
    | Enqueue(priority: int, now: int)
    | RecordRun(run: string, job: nat)
    | Claim(worker: string, now: int, leaseMs: int, pick: nat)
    | Heartbeat(job: nat, worker: string, now: int, leaseMs: int)
    | Complete(job: nat, worker: string, run: string, now: int)
    | Fail(job: nat, worker: string, error: (string, string), now: int)
    | AdminRetry(job: nat, now: int)
    | AdminHold(job: nat, now: int)
    | AdminCancel(job: nat, now: int)
    | Reorder(job: nat, priority: int)
    | SendFailed(job: nat, message: string)   // the queue refused a new job (src/solver/template.ts:100-102)

  /**
   * The tables, with what an observer remembers: who claimed what, what each worker was last told,
   * and the latest clock reading.
   */
  datatype World = World(
      jobs: seq<Job>, runs: map<string, nat>, claims: seq<(nat, string)>, told: map<(nat, string), int>, clock: int)

  function Start(clock: int): World { World([], map[], [], map[], clock) }

  /** The call succeeds in this state. */
  predicate Succeeds(w: World, e: Event) {
    match e
    case Enqueue(_, _) => true
    case RecordRun(run, job) => run !in w.runs && job < |w.jobs|
    case Claim(worker, now, leaseMs, pick) => WorkerOk(worker) && LeaseOk(leaseMs) && IsPick(w.jobs, now, pick)
    case Heartbeat(job, worker, _, leaseMs) => LeaseOk(leaseMs) && job < |w.jobs| && Owns(w.jobs[job], worker)
    case Complete(job, worker, run, _) =>
      run in w.runs && w.runs[run] == job && job < |w.jobs| && Owns(w.jobs[job], worker)
    case Fail(job, worker, _, _) => job < |w.jobs| && Owns(w.jobs[job], worker)
    case AdminRetry(job, _) => job < |w.jobs|
    case AdminHold(job, _) => job < |w.jobs|
    case AdminCancel(job, _) => job < |w.jobs|
    case Reorder(job, _) => job < |w.jobs|
    case SendFailed(job, _) => job < |w.jobs|
  }

  function EventTime(w: World, e: Event): int {
    if e.RecordRun? || e.Reorder? || e.SendFailed? then w.clock else e.now
  }

  function Put(w: World, id: nat, j: Job): World
    requires id < |w.jobs|
  {
    w.(jobs := w.jobs[id := j])
  }

  function Effect(w: World, e: Event): World
    requires Succeeds(w, e)
  {
    match e
    case Enqueue(priority, now) => w.(jobs := w.jobs + [NewJob(priority, now)])
    case RecordRun(run, job) => w.(runs := w.runs[run := job])
    case Claim(worker, now, leaseMs, pick) =>
      Put(w, pick, ClaimedJob(w.jobs[pick], worker, now, leaseMs)).(
        claims := w.claims + [(pick, worker)], told := w.told[(pick, worker) := now + leaseMs])
    case Heartbeat(job, worker, now, leaseMs) =>
      Put(w, job, HeartbeatJob(w.jobs[job], now, leaseMs)).(told := w.told[(job, worker) := now + leaseMs])
    case Complete(job, worker, run, now) =>
      Put(w, job, CompletedJob(w.jobs[job], run, now)).(told := w.told - {(job, worker)})
    case Fail(job, worker, error, now) =>
      Put(w, job, FailedJob(w.jobs[job], error, now)).(told := w.told - {(job, worker)})
    case AdminRetry(job, now) => Put(w, job, w.jobs[job].(status := Queued, nextAttemptAt := now, lastError := None))
    case AdminHold(job, _) => Put(w, job, w.jobs[job].(status := Held))
    case AdminCancel(job, _) => Put(w, job, w.jobs[job].(status := Cancelled))
    case Reorder(job, priority) => Put(w, job, w.jobs[job].(priority := priority))
    case SendFailed(job, message) =>
      Put(w, job, w.jobs[job].(status := Failed, lastError := Some(("QUEUE_SEND_FAILED", message))))
  }

  function Next(w: World, e: Event): World {
    (if Succeeds(w, e) then Effect(w, e) else w).(clock := EventTime(w, e))
  }

  function Steps(w: World, events: seq<Event>): World {
    if events == [] then w
    else Next(Steps(w, events[..|events| - 1]), events[|events| - 1])
  }

  function Run(clock: int, events: seq<Event>): World { Steps(Start(clock), events) }

  lemma RunStep(clock: int, events: seq<Event>, e: Event)
    ensures Run(clock, events + [e]) == Next(Run(clock, events), e)
  {
    assert (events + [e])[..|events|] == events;
  }

  // ---------------------------------------------------------- operations

  /** The job and run tables; ids are positions, runs name their job. `world` is what the observer has seen so far. */
  class JobStore {
    var jobs: seq<Job>
    var runs: map<string, nat>
    ghost var world: World

    ghost predicate Valid()
      reads this
    {
      world.jobs == jobs && world.runs == runs
    }

    constructor (ghost clock: int)
      ensures Valid() && world == Start(clock)
    {
      jobs, runs := [], map[];
      world := Start(clock);
    }

    /** The first claimable row in query order, if any. */
    method FindFirst(now: int) returns (r: Option<nat>)
      ensures r.Some? ==> IsPick(jobs, now, r.value)
      ensures r.None? ==> forall k :: 0 <= k < |jobs| ==> !Claimable(jobs[k], now)
    {
      r := None;
      for k := 0 to |jobs|
        invariant r.None? ==> forall i :: 0 <= i < k ==> !Claimable(jobs[i], now)
        invariant r.Some? ==> r.value < k && Claimable(jobs[r.value], now)
        invariant r.Some? ==> forall i :: 0 <= i < k && Claimable(jobs[i], now) ==> NoLater(jobs[r.value], jobs[i])
      {
        if Claimable(jobs[k], now) && (r.None? || !NoLater(jobs[r.value], jobs[k])) {
          r := Some(k);
        }
      }
    }

    /** `lost` says that the transaction loses a serialization race, which also answers with no job. */
    method ClaimSolverJob(worker: string, now: int, leaseMs: int, lost: bool)
      returns (r: Result<Option<Claimed>, LeaseError>)
      requires Valid()
      modifies this
      ensures Valid()
      ensures r.Err? <==> |worker| == 0 || |worker| > 128 || leaseMs < 1000
      ensures r.Ok? && r.value.Some? ==>
        var e := Claim(worker, now, leaseMs, r.value.value.id);
        && !lost && Succeeds(old(world), e) && world == Next(old(world), e)
        && r.value.value == Claimed(e.pick, jobs[e.pick].attemptCount, now + leaseMs)
      ensures r.Ok? && r.value.Some? ==> forall k :: 0 <= k < |old(jobs)| && Claimable(old(jobs)[k], now) ==>
        var first, other := old(jobs)[r.value.value.id], old(jobs)[k];
        && other.priority <= first.priority
        && (other.priority == first.priority ==> first.nextAttemptAt <= other.nextAttemptAt)
        && (other.priority == first.priority && other.nextAttemptAt == first.nextAttemptAt ==>
              first.createdAt <= other.createdAt)
      ensures !(r.Ok? && r.value.Some?) ==>
        && (r.Err? || lost || forall k :: 0 <= k < |jobs| ==> !Claimable(jobs[k], now))
        && world == old(world).(clock := now)
    {
      if !WorkerOk(worker) {
        world := world.(clock := now);
        return Err(BadWorker);
      }
      if !LeaseOk(leaseMs) {
        world := world.(clock := now);
        return Err(BadLease);
      }
      var found := FindFirst(now);
      if found.None? || lost {
        world := world.(clock := now);
        return Ok(None);
      }
      var id := found.value;
      world := Next(world, Claim(worker, now, leaseMs, id));
      var j := jobs[id];
      jobs := jobs[id := j.(status := Running, attemptCount := j.attemptCount + 1, leaseOwner := Some(worker),
                            leaseExpiresAt := Some(now + leaseMs), heartbeatAt := Some(now),
                            startedAt := if j.startedAt.Some? then j.startedAt else Some(now), lastError := None)];
      return Ok(Some(Claimed(id, jobs[id].attemptCount, now + leaseMs)));
    }

    method HeartbeatSolverJob(id: nat, worker: string, now: int, leaseMs: int) returns (r: Result<(), LeaseError>)
      requires Valid()
      modifies this
      ensures Valid()
      ensures r.Ok? <==>
        && leaseMs >= 1000 && id < |old(jobs)|
        && old(jobs)[id].status == Running && old(jobs)[id].leaseOwner == Some(worker)
      ensures world == Next(old(world), Heartbeat(id, worker, now, leaseMs))
    {
      world := Next(world, Heartbeat(id, worker, now, leaseMs));
      if !LeaseOk(leaseMs) {
        return Err(BadLease);
      }
      if id >= |jobs| || !Owns(jobs[id], worker) {
        return Err(NotOwned);
      }
      jobs := jobs[id := jobs[id].(heartbeatAt := Some(now), leaseExpiresAt := Some(now + leaseMs))];
      return Ok(());
    }

    method CompleteSolverJob(id: nat, worker: string, run: string, now: int) returns (r: Result<(), LeaseError>)
      requires Valid()
      modifies this
      ensures Valid()
      ensures r.Ok? <==>
        && run in runs && runs[run] == id && id < |old(jobs)|
        && old(jobs)[id].status == Running && old(jobs)[id].leaseOwner == Some(worker)
      ensures world == Next(old(world), Complete(id, worker, run, now))
    {
      world := Next(world, Complete(id, worker, run, now));
      if run !in runs || runs[run] != id {
        return Err(ForeignRun);
      }
      if id >= |jobs| || !Owns(jobs[id], worker) {
        return Err(NotOwned);
      }
      jobs := jobs[id := jobs[id].(status := Succeeded, successfulRun := Some(run), finishedAt := Some(now),
                                   leaseOwner := None, leaseExpiresAt := None, heartbeatAt := None)];
      return Ok(());
    }

    method FailSolverJob(id: nat, worker: string, error: (string, string), now: int)
      returns (r: Result<JobStatus, LeaseError>)
      requires Valid()
      modifies this
      ensures Valid()
      ensures r.Ok? <==>
        id < |old(jobs)| && old(jobs)[id].status == Running && old(jobs)[id].leaseOwner == Some(worker)
      ensures world == Next(old(world), Fail(id, worker, error, now))
      ensures r.Ok? ==> r.value == jobs[id].status
    {
      world := Next(world, Fail(id, worker, error, now));
      if id >= |jobs| || !Owns(jobs[id], worker) {
        return Err(NotOwned);
      }
      var j := jobs[id];
      var terminal := j.attemptCount >= j.maxAttempts;
      var status := if terminal then Failed else RetryWait;
      jobs := jobs[id := j.(status := status,
                            nextAttemptAt := if terminal then now else now + RetryDelay(j.attemptCount),
                            lastError := Some(error), finishedAt := if terminal then Some(now) else None,
                            leaseOwner := None, leaseExpiresAt := None, heartbeatAt := None)];
      return Ok(status);
    }

    method RetryJob(id: nat, now: int) returns (r: Result<(), LeaseError>)
      requires Valid()
      modifies this
      ensures Valid()
      ensures r.Ok? <==> id < |old(jobs)|
      ensures world == Next(old(world), AdminRetry(id, now))
    {
      world := Next(world, AdminRetry(id, now));
      if id >= |jobs| {
        return Err(NoSuchJob);
      }
      jobs := jobs[id := jobs[id].(status := Queued, nextAttemptAt := now, lastError := None)];
      return Ok(());
    }
  }

  // --------------------------------------------------------- claim budget

  function ClaimCount(claims: seq<(nat, string)>, job: nat): nat {
    if claims == [] then 0
    else ClaimCount(claims[..|claims| - 1], job) + if claims[|claims| - 1].0 == job then 1 else 0
  }

  /** The worker of the latest claim of a job. */
  function LastClaimer(claims: seq<(nat, string)>, job: nat): Option<string> {
    if claims == [] then None
    else if claims[|claims| - 1].0 == job then Some(claims[|claims| - 1].1)
    else LastClaimer(claims[..|claims| - 1], job)
  }

  /** What every run keeps, whatever the clock does and whatever the administrator does. */
  predicate JobOk(w: World, i: nat)
    requires i < |w.jobs|
  {
    var j := w.jobs[i];
    && j.attemptCount == ClaimCount(w.claims, i) <= 3
    && j.maxAttempts == 3
    && (j.status == Running ==> j.leaseOwner.Some? && j.leaseOwner == LastClaimer(w.claims, i) && j.attemptCount >= 1)
    && (j.status == RetryWait ==> j.attemptCount < 3)
    && (j.leaseOwner.Some? <==> j.leaseExpiresAt.Some?)
    && (j.leaseOwner.Some? ==> TellsLease(w, i))
    && (j.status == Succeeded ==> j.successfulRun.Some?)
    && (j.successfulRun.Some? ==> j.successfulRun.value in w.runs && w.runs[j.successfulRun.value] == i)
  }

  /** The lease on the row is the one its owner was last told. */
  predicate TellsLease(w: World, i: nat)
    requires i < |w.jobs| && w.jobs[i].leaseOwner.Some? && w.jobs[i].leaseExpiresAt.Some?
  {
    var k := (i, w.jobs[i].leaseOwner.value);
    k in w.told && w.told[k] == w.jobs[i].leaseExpiresAt.value
  }

  ghost predicate Inv(w: World) {
    && (forall i :: 0 <= i < |w.jobs| ==> JobOk(w, i))
    && (forall k :: 0 <= k < |w.claims| ==> w.claims[k].0 < |w.jobs|)
    && (forall r :: r in w.runs ==> w.runs[r] < |w.jobs|)
  }

  lemma {:induction false} UnclaimedCount(claims: seq<(nat, string)>, job: nat)
    requires forall k :: 0 <= k < |claims| ==> claims[k].0 != job
    ensures ClaimCount(claims, job) == 0
  {
    if claims != [] {
      UnclaimedCount(claims[..|claims| - 1], job);
    }
  }

  lemma ClaimKeepsJob(w: World, e: Event, i: nat)
    requires e.Claim? && Inv(w) && Succeeds(w, e) && i < |w.jobs|
    ensures JobOk(Effect(w, e), i)
  {
    assert JobOk(w, i);
    assert (w.claims + [(e.pick, e.worker)])[..|w.claims|] == w.claims;
  }

  lemma OwnerKeepsJob(w: World, e: Event, i: nat)
    requires e.Heartbeat? || e.Complete? || e.Fail?
    requires Inv(w) && Succeeds(w, e) && i < |w.jobs|
    ensures JobOk(Effect(w, e), i)
  {
    assert JobOk(w, i);
  }

  lemma AdminKeepsJob(w: World, e: Event, i: nat)
    requires !(e.Claim? || e.Heartbeat? || e.Complete? || e.Fail?)
    requires Inv(w) && Succeeds(w, e) && i < |Effect(w, e).jobs|
    ensures JobOk(Effect(w, e), i)
  {
    if i < |w.jobs| {
      assert JobOk(w, i);
    } else {
      UnclaimedCount(w.claims, i);
    }
  }

  lemma SuccessKeepsJob(w: World, e: Event, i: nat)
    requires Inv(w) && Succeeds(w, e) && i < |Effect(w, e).jobs|
    ensures JobOk(Effect(w, e), i)
  {
    hide JobOk, Inv;
    if e.Claim? {
      ClaimKeepsJob(w, e, i);
    } else if e.Heartbeat? || e.Complete? || e.Fail? {
      OwnerKeepsJob(w, e, i);
    } else {
      AdminKeepsJob(w, e, i);
    }
  }

  lemma NextKeepsInv(w: World, e: Event)
    requires Inv(w)
    ensures Inv(Next(w, e))
  {
    var next := Next(w, e);
    forall i | 0 <= i < |next.jobs| ensures JobOk(next, i) {
      if Succeeds(w, e) {
        SuccessKeepsJob(w, e, i);
        assert JobOk(Effect(w, e), i);
      } else {
        assert JobOk(w, i);
      }
    }
  }

  lemma {:induction false} StepsKeepInv(w: World, events: seq<Event>)
    requires Inv(w)
    ensures Inv(Steps(w, events))
  {
    if events != [] {
      StepsKeepInv(w, events[..|events| - 1]);
      NextKeepsInv(Steps(w, events[..|events| - 1]), events[|events| - 1]);
    }
  }

  lemma RunKeepsInv(clock: int, events: seq<Event>)
    ensures Inv(Run(clock, events))
  {
    StepsKeepInv(Start(clock), events);
  }

  /** In any run, with any clock and any admin action, each job is claimed at most three times. */
  lemma AtMostThreeClaims(clock: int, events: seq<Event>, job: nat)
    ensures ClaimCount(Run(clock, events).claims, job) <= 3
  {
    RunKeepsInv(clock, events);
    var w := Run(clock, events);
    if job < |w.jobs| {
      assert JobOk(w, job);
    } else {
      UnclaimedCount(w.claims, job);
    }
  }

  /** A heartbeat, a completion or a failure is accepted only from the worker of the latest claim. */
  lemma OnlyTheLatestClaimerActs(clock: int, events: seq<Event>, e: Event)
    requires e.Heartbeat? || e.Complete? || e.Fail?
    requires Succeeds(Run(clock, events), e)
    ensures LastClaimer(Run(clock, events).claims, e.job) == Some(e.worker)
  {
    RunKeepsInv(clock, events);
    assert JobOk(Run(clock, events), e.job);
  }

  /** A worker's failure ends the job exactly when it was the third claim; otherwise the job will be claimable again. */
  lemma FailureIsFinalExactlyAtTheThird(clock: int, events: seq<Event>, e: Event)
    requires e.Fail? && Succeeds(Run(clock, events), e)
    ensures var w, next := Run(clock, events), Next(Run(clock, events), e);
      && (next.jobs[e.job].status == Failed <==> ClaimCount(w.claims, e.job) == 3)
      && (next.jobs[e.job].status != Failed ==>
            forall t :: Claimable(next.jobs[e.job], t)
              <==> t >= e.now + if ClaimCount(w.claims, e.job) == 1 then 60000 else 300000)
  {
    RunKeepsInv(clock, events);
    assert JobOk(Run(clock, events), e.job);
  }

  /**
   * After a claim or a heartbeat the job is up for claiming again exactly when its lease has run out and a claim is
   * left.
   */
  lemma LeaseProtects(clock: int, events: seq<Event>, e: Event)
    requires (e.Claim? || e.Heartbeat?) && Succeeds(Run(clock, events), e)
    ensures var next, job := Next(Run(clock, events), e), if e.Claim? then e.pick else e.job;
      forall t :: Claimable(next.jobs[job], t) <==> t > e.now + e.leaseMs && ClaimCount(next.claims, job) < 3
  {
    RunKeepsInv(clock, events);
    NextKeepsInv(Run(clock, events), e);
    var job := if e.Claim? then e.pick else e.job;
    assert JobOk(Run(clock, events), job);
    assert JobOk(Next(Run(clock, events), e), job);
  }

  /** Only this row changed. */
  ghost predicate OnlyRow(w: World, next: World, id: nat) {
    && id < |w.jobs| == |next.jobs| && next.runs == w.runs && next.claims == w.claims && next.told == w.told
    && forall k :: 0 <= k < |w.jobs| && k != id ==> next.jobs[k] == w.jobs[k]
  }

  /**
   * What the administrator and the queue do to a row: a retry queues the job and touches neither
   * lease nor attempt count, a hold and a cancel change the status, a reordering the priority, a
   * refused message the status and the error.
   */
  lemma AdminRows(w: World, e: Event)
    requires e.AdminRetry? || e.AdminHold? || e.AdminCancel? || e.Reorder? || e.SendFailed?
    ensures Succeeds(w, e) <==> e.job < |w.jobs|
    ensures e.job < |w.jobs| ==>
      var next := Next(w, e);
      var before, after := w.jobs[e.job], next.jobs[e.job];
      && OnlyRow(w, next, e.job)
      && after == before.(status := after.status, priority := after.priority, nextAttemptAt := after.nextAttemptAt,
        lastError := after.lastError)
      && after.status == (match e
        case AdminRetry(_, _) => Queued
        case AdminHold(_, _) => Held
        case AdminCancel(_, _) => Cancelled
        case Reorder(_, _) => before.status
        case _ => JobStatus.Failed)
      && after.priority == (if e.Reorder? then e.priority else before.priority)
      && after.nextAttemptAt == (if e.AdminRetry? then e.now else before.nextAttemptAt)
      && after.lastError == (if e.AdminRetry? then None
        else if e.SendFailed? then Some(("QUEUE_SEND_FAILED", e.message)) else before.lastError)
  {
  }

  /** A recorded run belongs to its job from then on. */
  lemma RecordedRun(w: World, run: string, job: nat)
    ensures Succeeds(w, RecordRun(run, job)) <==> run !in w.runs && job < |w.jobs|
    ensures run !in w.runs && job < |w.jobs| ==>
      Next(w, RecordRun(run, job)).runs == w.runs[run := job] && Next(w, RecordRun(run, job)).jobs == w.jobs
  {
  }

  /** A new job can be claimed at once; a completed, held or cancelled one, or one not queued, cannot. */
  lemma ClaimableAfter(w: World, e: Event)
    requires Succeeds(w, e)
    ensures e.Enqueue? ==> forall t :: Claimable(Next(w, e).jobs[|w.jobs|], t) <==> t >= e.now
    ensures e.Complete? || e.AdminHold? || e.AdminCancel? || e.SendFailed? ==>
      forall t :: !Claimable(Next(w, e).jobs[e.job], t)
  {
  }

  /** In any run of the system, every solver run belongs to a job, and a job that succeeded names one of its own. */
  lemma SuccessHasOwnRun(clock: int, events: seq<Event>, job: nat)
    requires job < |Run(clock, events).jobs|
    ensures var w := Run(clock, events);
      && (forall r :: r in w.runs ==> w.runs[r] < |w.jobs|)
      && (w.jobs[job].status == Succeeded ==>
            && w.jobs[job].successfulRun.Some? && w.jobs[job].successfulRun.value in w.runs
            && w.runs[w.jobs[job].successfulRun.value] == job)
  {
    RunKeepsInv(clock, events);
    assert JobOk(Run(clock, events), job);
  }

  /** The admin retry does not give back attempts: the job becomes claimable exactly when a claim was left. */
  lemma AdminRetryWorksExactlyWithClaimsLeft(clock: int, events: seq<Event>, job: nat, now: int)
    requires job < |Run(clock, events).jobs|
    ensures var w, next := Run(clock, events), Next(Run(clock, events), AdminRetry(job, now));
      forall t :: Claimable(next.jobs[job], t) <==> t >= now && ClaimCount(w.claims, job) < 3
  {
    RunKeepsInv(clock, events);
    assert JobOk(Run(clock, events), job);
  }

  /** Claimed three times, failed, and retried by the administrator. */
  function SpentJob(): seq<Event> {
    [Enqueue(0, 0), Claim("a", 0, 1000, 0), Claim("a", 2000, 1000, 0), Claim("a", 4000, 1000, 0),
     Fail(0, "a", ("E", ""), 4000), AdminRetry(0, 5000)]
  }

  lemma SoleClaim(w: World, j: Job, worker: string, now: int)
    requires w.jobs == [j] && Claimable(j, now) && WorkerOk(worker)
    ensures Next(w, Claim(worker, now, 1000, 0)).jobs == [ClaimedJob(j, worker, now, 1000)]
  {
    assert IsPick(w.jobs, now, 0);
  }

  lemma StepsAppend(w: World, events: seq<Event>, e: Event)
    ensures Steps(w, events + [e]) == Next(Steps(w, events), e)
  {
    assert (events + [e])[..|events|] == events;
  }

  lemma Reassociate(a: seq<Event>, b: seq<Event>, e: Event)
    ensures a + (b + [e]) == (a + b) + [e]
  {
  }

  lemma {:induction false} StepsConcat(w: World, events: seq<Event>, more: seq<Event>)
    ensures Steps(w, events + more) == Steps(Steps(w, events), more)
  {
    if more == [] {
      assert events + more == events;
    } else {
      hide Next, Steps;
      var rest, e := more[..|more| - 1], more[|more| - 1];
      assert more == rest + [e];
      Reassociate(events, rest, e);
      StepsConcat(w, events, rest);
      StepsAppend(w, events + rest, e);
      StepsAppend(Steps(w, events), rest, e);
    }
  }

  lemma SpentJobIs()
    ensures var w := Run(0, SpentJob());
      |w.jobs| == 1 && w.jobs[0].status == Queued && w.jobs[0].attemptCount == 3
  {
    var w0, e := Start(0), SpentJob();
    var w1 := Next(w0, e[0]);
    var w2 := Next(w1, e[1]);
    SoleClaim(w1, NewJob(0, 0), "a", 0);
    var w3 := Next(w2, e[2]);
    var j2 := ClaimedJob(NewJob(0, 0), "a", 0, 1000);
    SoleClaim(w2, j2, "a", 2000);
    SoleClaim(w3, ClaimedJob(j2, "a", 2000, 1000), "a", 4000);
    SpentSteps(w0);
  }

  /** A run whose job is queued again by the retry and yet will never be claimed, whatever happens next. */
  lemma RetryOfSpentJob(more: seq<Event>)
    ensures var w := Run(0, SpentJob());
      && |w.jobs| == 1 && w.jobs[0].status == Queued && forall t :: !Claimable(w.jobs[0], t)
    ensures ClaimCount(Run(0, SpentJob()).claims, 0) == 3
    ensures ClaimCount(Run(0, SpentJob() + more).claims, 0) == 3
  {
    var e := SpentJob();
    hide SpentJob;
    SpentJobIs();
    RunKeepsInv(0, e);
    assert JobOk(Run(0, e), 0);
    AtMostThreeClaims(0, e + more, 0);
    StepsConcat(Start(0), e, more);
    ClaimsOnlyGrow(Run(0, e), more, 0);
  }

  lemma SpentSteps(w: World)
    ensures var e := SpentJob();
      Steps(w, e) == Next(Next(Next(Next(Next(Next(Steps(w, []), e[0]), e[1]), e[2]), e[3]), e[4]), e[5])
  {
    var e := SpentJob();
    assert e[..0] == [] && e[..6] == e;
    forall k | 0 <= k < 6 ensures Steps(w, e[..k + 1]) == Next(Steps(w, e[..k]), e[k]) {
      assert e[..k + 1] == e[..k] + [e[k]];
      StepsAppend(w, e[..k], e[k]);
    }
    hide Steps, Next;
    assert Steps(w, e[..1]) == Next(Steps(w, e[..0]), e[0]);
    assert Steps(w, e[..2]) == Next(Steps(w, e[..1]), e[1]);
    assert Steps(w, e[..3]) == Next(Steps(w, e[..2]), e[2]);
    assert Steps(w, e[..4]) == Next(Steps(w, e[..3]), e[3]);
    assert Steps(w, e[..5]) == Next(Steps(w, e[..4]), e[4]);
    assert Steps(w, e[..6]) == Next(Steps(w, e[..5]), e[5]);
  }

  lemma {:induction false} ClaimsOnlyGrow(w: World, more: seq<Event>, job: nat)
    ensures ClaimCount(w.claims, job) <= ClaimCount(Steps(w, more).claims, job)
  {
    if more != [] {
      var before, e := Steps(w, more[..|more| - 1]), more[|more| - 1];
      ClaimsOnlyGrow(w, more[..|more| - 1], job);
      if Succeeds(before, e) && e.Claim? {
        assert Next(before, e).claims[..|before.claims|] == before.claims;
      }
    }
  }

  // ------------------------------------------------------ exclusive leases

  /** From its own point of view the worker still holds the job at time `t`. */
  predicate Holds(w: World, job: nat, worker: string, t: int) {
    (job, worker) in w.told && w.told[(job, worker)] >= t
  }

  /** Two workers believe that they hold the job now. */
  ghost predicate TwoHold(w: World, job: nat) {
    exists a, b :: a != b && Holds(w, job, a, w.clock) && Holds(w, job, b, w.clock)
  }

  /** The row shows an unexpired lease. */
  predicate Leased(j: Job, t: int) { j.leaseOwner.Some? && j.leaseExpiresAt.Some? && j.leaseExpiresAt.value >= t }

  /** An unexpired lease is the one on the row, and such a row is not up for claiming. */
  predicate HolderOk(w: World, job: nat, worker: string) {
    Holds(w, job, worker, w.clock) ==>
      && job < |w.jobs|
      && w.jobs[job].leaseOwner == Some(worker)
      && w.jobs[job].leaseExpiresAt == Some(w.told[(job, worker)])
      && w.jobs[job].status != RetryWait
      && (w.jobs[job].status == Queued ==> w.jobs[job].attemptCount >= 3)
  }

  ghost predicate Exclusive(w: World) { forall job: nat, worker :: HolderOk(w, job, worker) }

  /** A retry that would let a second worker in: the row shows an unexpired lease, and a claim is left. */
  predicate Risky(w: World, job: nat, now: int) {
    job < |w.jobs| && Leased(w.jobs[job], now) && w.jobs[job].attemptCount < 3
  }

  /** The clock does not run backwards, and no retry is risky. */
  predicate Careful(w: World, e: Event) {
    EventTime(w, e) >= w.clock && (e.AdminRetry? ==> !Risky(w, e.job, e.now))
  }

  lemma CarefulKeepsExclusive(w: World, e: Event)
    requires Inv(w) && Exclusive(w) && Careful(w, e)
    ensures Exclusive(Next(w, e))
  {
    var next := Next(w, e);
    forall job: nat, worker ensures HolderOk(next, job, worker) {
      assert HolderOk(w, job, worker);
      assert Succeeds(w, e) && e.Claim? ==> Claimable(w.jobs[e.pick], e.now);
      assert job < |w.jobs| ==> JobOk(w, job);
    }
  }

  predicate CarefulSteps(w: World, events: seq<Event>) {
    forall k {:trigger events[k]} :: 0 <= k < |events| ==> Careful(Steps(w, events[..k]), events[k])
  }

  predicate CarefulRun(clock: int, events: seq<Event>) { CarefulSteps(Start(clock), events) }

  lemma CarefulAppend(w: World, events: seq<Event>, e: Event)
    ensures CarefulSteps(w, events + [e]) <==> CarefulSteps(w, events) && Careful(Steps(w, events), e)
  {
    var all := events + [e];
    assert forall k :: 0 <= k < |events| ==> all[..k] == events[..k] && all[k] == events[k];
    assert all[..|events|] == events && all[|events|] == e;
  }

  lemma {:induction false} CarefulStepsAreExclusive(w: World, events: seq<Event>)
    requires Inv(w) && Exclusive(w) && CarefulSteps(w, events)
    ensures Inv(Steps(w, events)) && Exclusive(Steps(w, events))
  {
    StepsKeepInv(w, events);
    if events != [] {
      var last := |events| - 1;
      var rest := events[..last];
      assert events == rest + [events[last]];
      CarefulAppend(w, rest, events[last]);
      CarefulStepsAreExclusive(w, rest);
      CarefulKeepsExclusive(Steps(w, rest), events[last]);
    }
  }

  lemma CarefulRunsAreExclusive(clock: int, events: seq<Event>)
    requires CarefulRun(clock, events)
    ensures Exclusive(Run(clock, events))
  {
    CarefulStepsAreExclusive(Start(clock), events);
  }

  lemma ExclusiveMeansOneHolder(w: World, job: nat)
    requires Exclusive(w)
    ensures !TwoHold(w, job)
  {
    forall a, b | Holds(w, job, a, w.clock) && Holds(w, job, b, w.clock) ensures a == b {
      assert HolderOk(w, job, a) && HolderOk(w, job, b);
    }
  }

  /** No two workers hold unexpired leases on one job, now or later, in any careful run. */
  lemma NoTwoHolders(clock: int, events: seq<Event>, job: nat, a: string, b: string, t: int)
    requires CarefulRun(clock, events) && t >= Run(clock, events).clock
    requires Holds(Run(clock, events), job, a, t) && Holds(Run(clock, events), job, b, t)
    ensures a == b
  {
    CarefulRunsAreExclusive(clock, events);
    var w := Run(clock, events);
    assert HolderOk(w, job, a) && HolderOk(w, job, b);
  }

  /** The administrator holds every other job below `n`. */
  function HoldOthers(n: nat, job: nat, now: int): seq<Event> {
    if n == 0 then []
    else if n - 1 == job then HoldOthers(n - 1, job, now)
    else HoldOthers(n - 1, job, now) + [AdminHold(n - 1, now)]
  }

  /** Only the other jobs below `n` changed, and those are held. */
  predicate OthersAside(w: World, u: World, n: nat, job: nat) {
    && u.told == w.told && u.clock == w.clock && |u.jobs| == |w.jobs| && n <= |w.jobs| && job < |w.jobs|
    && u.jobs[job] == w.jobs[job]
    && forall k :: 0 <= k < n && k != job ==> u.jobs[k].status == Held
  }

  lemma HoldAside(w: World, u: World, n: nat, job: nat)
    requires OthersAside(w, u, n, job) && n < |w.jobs| && n != job
    ensures OthersAside(w, Next(u, AdminHold(n, w.clock)), n + 1, job)
  {
  }

  lemma HoldIsCareful(w: World, u: World, n: nat, job: nat)
    requires OthersAside(w, u, n, job)
    ensures Careful(u, AdminHold(n, w.clock))
  {
  }

  lemma NothingAside(w: World, job: nat)
    requires job < |w.jobs|
    ensures CarefulSteps(w, []) && OthersAside(w, Steps(w, []), 0, job)
  {
  }

  lemma {:induction false} OthersHeld(w: World, n: nat, job: nat)
    requires n <= |w.jobs| && job < |w.jobs|
    ensures CarefulSteps(w, HoldOthers(n, job, w.clock))
    ensures OthersAside(w, Steps(w, HoldOthers(n, job, w.clock)), n, job)
  {
    hide Steps, Next, CarefulSteps, Careful, OthersAside;
    if n == 0 {
      NothingAside(w, job);
    } else {
      OthersHeld(w, n - 1, job);
      var rest := HoldOthers(n - 1, job, w.clock);
      if n - 1 == job {
        OneMoreAside(w, Steps(w, rest), n - 1, job);
      } else {
        HoldAside(w, Steps(w, rest), n - 1, job);
        HoldIsCareful(w, Steps(w, rest), n - 1, job);
        StepsAppend(w, rest, AdminHold(n - 1, w.clock));
        CarefulAppend(w, rest, AdminHold(n - 1, w.clock));
      }
    }
  }

  lemma OneMoreAside(w: World, u: World, n: nat, job: nat)
    requires OthersAside(w, u, n, job) && n == job
    ensures OthersAside(w, u, n + 1, job)
  {
  }

  /** How a second worker gets in: the others out of the way, it claims the queued job. */
  lemma SecondWorker(w: World, job: nat, a: string) returns (more: seq<Event>)
    requires job < |w.jobs| && Claimable(w.jobs[job], w.clock) && Holds(w, job, a, w.clock)
    ensures CarefulSteps(w, more) && TwoHold(Steps(w, more), job)
  {
    var b := if a == "a" then "b" else "a";
    assert a != b && WorkerOk(b);
    hide *;
    var rest, e := HoldOthers(|w.jobs|, job, w.clock), Claim(b, w.clock, 1000, job);
    OthersHeld(w, |w.jobs|, job);
    ClaimAmongHeld(w, Steps(w, rest), job, a, b);
    StepsAppend(w, rest, e);
    CarefulAppend(w, rest, e);
    more := rest + [e];
  }

  lemma ClaimAmongHeld(w: World, u: World, job: nat, a: string, b: string)
    requires OthersAside(w, u, |w.jobs|, job) && Claimable(w.jobs[job], w.clock)
    requires Holds(w, job, a, w.clock) && a != b && WorkerOk(b)
    ensures var e := Claim(b, w.clock, 1000, job); Careful(u, e) && TwoHold(Next(u, e), job)
  {
    assert IsPick(u.jobs, w.clock, job);
    var end := Next(u, Claim(b, w.clock, 1000, job));
    assert (job, a) != (job, b);
    assert Holds(end, job, a, end.clock) && Holds(end, job, b, end.clock);
  }

  /**
   * After a careful run, an admin retry keeps leases exclusive in every careful continuation
   * exactly when it is not risky: the row shows no unexpired lease, or no claim is left.
   */
  lemma AdminRetryKeepsExclusiveExactly(clock: int, events: seq<Event>, job: nat, now: int)
    requires CarefulRun(clock, events) && job < |Run(clock, events).jobs| && now >= Run(clock, events).clock
    ensures var w := Run(clock, events);
      var next := Next(w, AdminRetry(job, now));
      (forall more :: CarefulSteps(next, more) ==> !TwoHold(Steps(next, more), job)) <==> !Risky(w, job, now)
  {
    var w := Run(clock, events);
    var next := Next(w, AdminRetry(job, now));
    RunKeepsInv(clock, events);
    CarefulRunsAreExclusive(clock, events);
    if Risky(w, job, now) {
      assert JobOk(w, job) && TellsLease(w, job);
      var more := SecondWorker(next, job, w.jobs[job].leaseOwner.value);
      assert CarefulSteps(next, more) && TwoHold(Steps(next, more), job);
    } else {
      CarefulKeepsExclusive(w, AdminRetry(job, now));
      NextKeepsInv(w, AdminRetry(job, now));
      forall more | CarefulSteps(next, more) ensures !TwoHold(Steps(next, more), job) {
        CarefulStepsAreExclusive(next, more);
        ExclusiveMeansOneHolder(Steps(next, more), job);
      }
    }
  }

  function FirstLease(): World {
    World([ClaimedJob(NewJob(0, 0), "a", 0, 60000)], map[], [(0, "a")], map[(0, "a") := 60000], 0)
  }

  lemma FirstLeaseIsReachable()
    ensures Run(0, [Enqueue(0, 0), Claim("a", 0, 60000, 0)]) == FirstLease()
  {
    var e0, e1 := Enqueue(0, 0), Claim("a", 0, 60000, 0);
    RunStep(0, [], e0);
    assert [] + [e0] == [e0] && [e0] + [e1] == [e0, e1];
    var w1 := World([NewJob(0, 0)], map[], [], map[], 0);
    assert Run(0, [e0]) == w1;
    RunStep(0, [e0], e1);
    assert IsPick(w1.jobs, 0, 0);
  }

  lemma StolenLease()
    ensures var w := Next(Next(FirstLease(), AdminRetry(0, 1000)), Claim("b", 1000, 60000, 0));
      Holds(w, 0, "a", 1000) && Holds(w, 0, "b", 1000)
  {
    var w := Next(FirstLease(), AdminRetry(0, 1000));
    assert IsPick(w.jobs, 1000, 0);
    assert (0, "a") != (0, "b");
  }

  /** Worker "a" holds the job, the administrator retries it, and worker "b" claims it. */
  function StolenRun(): seq<Event> {
    [Enqueue(0, 0), Claim("a", 0, 60000, 0)] + [AdminRetry(0, 1000)] + [Claim("b", 1000, 60000, 0)]
  }

  /** Without the care: an admin retry during a lease lets a second worker in at once. */
  lemma AdminRetryBreaksExclusivity()
    ensures Holds(Run(0, StolenRun()), 0, "a", 1000) && Holds(Run(0, StolenRun()), 0, "b", 1000)
  {
    var events := [Enqueue(0, 0), Claim("a", 0, 60000, 0)];
    FirstLeaseIsReachable();
    StolenLease();
    RunStep(0, events, AdminRetry(0, 1000));
    RunStep(0, events + [AdminRetry(0, 1000)], Claim("b", 1000, 60000, 0));
  }
}
