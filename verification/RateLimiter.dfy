/**
 * The fixed-window limiter of attempt submissions (src/http/public-router.ts:18-25): one entry
 * a client key, in memory. Times are milliseconds.
 */
module RateLimiter {
  import opened Common

  const LIMIT: int := 60
  const WINDOW: int := 60000

  datatype Entry = Entry(count: int, resetAt: int)

  type Rates = map<string, Entry>

  /** Milliseconds rounded up to seconds. */
  function Ceil(ms: int): int { (ms + 999) / 1000 }

  /** The entry of a key after a submission. */
  function Current(rate: Rates, key: string, now: int): Entry {
    if key !in rate || rate[key].resetAt <= now then Entry(1, now + WINDOW)
    else Entry(rate[key].count + 1, rate[key].resetAt)
  }

  /** The `Retry-After` of a rejected submission; none when it is admitted. */
  function RetryAfter(current: Entry, now: int): Option<int> {
    if current.count > LIMIT then Some(Ceil(current.resetAt - now)) else None
  }

  class Limiter {
    var rate: Rates

    constructor ()
      ensures rate == map[]
    {
      rate := map[];
    }

    method Submit(key: string, now: int) returns (retryAfter: Option<int>)
      modifies this
      ensures rate == old(rate)[key := Current(old(rate), key, now)]
      ensures retryAfter == RetryAfter(rate[key], now)
    {
      var current;
      if key !in rate || rate[key].resetAt <= now {
        current := Entry(1, now + 60000);
      } else {
        current := rate[key].(count := rate[key].count + 1);
      }
      rate := rate[key := current];
      if current.count > 60 {
        return Some(Ceil(current.resetAt - now));
      }
      return None;
    }
  }

  // ---------------------------------------------------------------- runs

  datatype Submission = Submission(key: string, now: int)

  /** A submission as it was handled: in which window, named by its end, and whether it passed. */
  datatype Handled = Handled(key: string, now: int, window: int, admitted: bool)

  datatype State = State(rate: Rates, log: seq<Handled>)

  function Next(s: State, e: Submission): State {
    var current := Current(s.rate, e.key, e.now);
    State(s.rate[e.key := current], s.log + [Handled(e.key, e.now, current.resetAt, RetryAfter(current, e.now).None?)])
  }

  function Run(events: seq<Submission>): (s: State)
    ensures |s.log| == |events|
    ensures forall i :: 0 <= i < |events| ==> s.log[i].key == events[i].key && s.log[i].now == events[i].now
  {
    if events == [] then State(map[], []) else Next(Run(events[..|events| - 1]), events[|events| - 1])
  }

  predicate Monotone(events: seq<Submission>) {
    forall i, j :: 0 <= i < j < |events| ==> events[i].now <= events[j].now
  }

  /** Admitted submissions of a key in one window. */
  function Passed(log: seq<Handled>, key: string, window: int): nat {
    if log == [] then 0
    else
      var h := log[|log| - 1];
      Passed(log[..|log| - 1], key, window) + if h.key == key && h.admitted && h.window == window then 1 else 0
  }

  predicate Within(h: Handled, key: string, from: int, to: int) { h.key == key && h.admitted && from <= h.now <= to }

  /** Admitted submissions of a key between two times, both included. */
  function PassedWithin(log: seq<Handled>, key: string, from: int, to: int): nat {
    if log == [] then 0
    else PassedWithin(log[..|log| - 1], key, from, to) + if Within(log[|log| - 1], key, from, to) then 1 else 0
  }

  // ----------------------------------------------------------- invariant

  /** A submission falls into its window, which ends within a minute of it. */
  predicate InWindow(h: Handled) { h.window - WINDOW <= h.now < h.window }

  /** Two windows of a key are the same or at least a minute apart. */
  predicate Apart(log: seq<Handled>, i: nat, j: nat)
    requires i < |log| && j < |log|
  {
    log[i].key == log[j].key ==>
      || log[i].window == log[j].window
      || log[i].window + WINDOW <= log[j].window
      || log[j].window + WINDOW <= log[i].window
  }

  /** The entry of a key is its latest window, with the number of submissions made in it. */
  predicate EntryOk(s: State, i: nat)
    requires i < |s.log|
  {
    s.log[i].key in s.rate && s.log[i].window <= s.rate[s.log[i].key].resetAt
  }

  ghost predicate KeyOk(s: State, key: string) {
    && (forall w :: Passed(s.log, key, w) <= LIMIT)
    && (key in s.rate ==>
      && s.rate[key].count >= 1
      && WindowUsed(s.log, key, s.rate[key].resetAt)
      && Passed(s.log, key, s.rate[key].resetAt) == (if s.rate[key].count <= LIMIT then s.rate[key].count else LIMIT))
  }

  ghost predicate Inv(s: State) {
    && (forall i: nat :: i < |s.log| ==> InWindow(s.log[i]) && EntryOk(s, i))
    && (forall i: nat, j: nat :: i < |s.log| && j < |s.log| ==> Apart(s.log, i, j))
    && (forall key :: KeyOk(s, key))
  }

  predicate WindowUsed(log: seq<Handled>, key: string, w: int) {
    exists i :: 0 <= i < |log| && log[i].key == key && log[i].window == w
  }

  lemma {:induction false} UnusedWindow(log: seq<Handled>, key: string, w: int)
    requires !WindowUsed(log, key, w)
    ensures Passed(log, key, w) == 0
  {
    if log != [] {
      var n := |log| - 1;
      UnusedWindow(log[..n], key, w);
      assert log[n].key != key || log[n].window != w;
    }
  }

  lemma NextKeepsApart(s: State, e: Submission)
    requires Inv(s)
    ensures var log := Next(s, e).log; forall i: nat, j: nat :: i < |log| && j < |log| ==> Apart(log, i, j)
  {
    var log, n := Next(s, e).log, |s.log|;
    forall i: nat | i < n ensures Apart(log, i, n) && Apart(log, n, i) {
      if s.log[i].key == e.key {
        assert EntryOk(s, i) && KeyOk(s, e.key);
        if s.rate[e.key].resetAt > e.now {
          var k: nat :| k < n && s.log[k].key == e.key && s.log[k].window == s.rate[e.key].resetAt;
          assert Apart(s.log, i, k);
        }
      }
    }
    forall i: nat, j: nat | i < |log| && j < |log| ensures Apart(log, i, j) {
      assert i < n && j < n ==> Apart(s.log, i, j);
    }
  }

  /** The submission opens a window. */
  predicate Opens(s: State, e: Submission) { e.key !in s.rate || s.rate[e.key].resetAt <= e.now }

  /** What the run so far looks like to a submission: no later one, and the invariant. */
  ghost predicate Ready(s: State, e: Submission) {
    Inv(s) && forall i :: 0 <= i < |s.log| ==> s.log[i].now <= e.now
  }

  lemma PassedStep(log: seq<Handled>, h: Handled, key: string, w: int)
    ensures Passed(log + [h], key, w) ==
      Passed(log, key, w) + if h.key == key && h.admitted && h.window == w then 1 else 0
  {
    assert (log + [h])[..|log|] == log;
  }

  lemma StillUsed(log: seq<Handled>, h: Handled, key: string, w: int)
    requires WindowUsed(log, key, w) || (h.key == key && h.window == w)
    ensures WindowUsed(log + [h], key, w)
  {
    var next := log + [h];
    if h.key == key && h.window == w {
      assert next[|log|] == h;
    } else {
      var k :| 0 <= k < |log| && log[k].key == key && log[k].window == w;
      assert next[k] == log[k];
    }
  }

  /** A window just opened was not in use. */
  lemma OpenedIsUnused(s: State, e: Submission)
    requires Inv(s) && Opens(s, e)
    ensures !WindowUsed(s.log, e.key, e.now + WINDOW)
  {
    forall i: nat | i < |s.log| && s.log[i].key == e.key ensures s.log[i].window != e.now + WINDOW {
      assert EntryOk(s, i);
    }
  }

  /** A submission falls into its window, new or not. */
  lemma NewInWindow(s: State, e: Submission)
    requires Ready(s, e)
    ensures InWindow(Next(s, e).log[|s.log|])
  {
    if !Opens(s, e) {
      assert KeyOk(s, e.key);
      var k: nat :| k < |s.log| && s.log[k].key == e.key && s.log[k].window == s.rate[e.key].resetAt;
      assert InWindow(s.log[k]);
    }
  }

  lemma EntryAfter(s: State, e: Submission, i: nat)
    requires Ready(s, e) && i <= |s.log|
    ensures InWindow(Next(s, e).log[i]) && EntryOk(Next(s, e), i)
  {
    if i == |s.log| {
      NewInWindow(s, e);
    } else {
      assert InWindow(s.log[i]) && EntryOk(s, i);
    }
  }

  /** What passed in a window after a submission of its key. */
  lemma PassedAfter(s: State, e: Submission, w: int)
    requires Inv(s)
    ensures var current := Current(s.rate, e.key, e.now);
      var before := if Opens(s, e) && w == current.resetAt then 0 else Passed(s.log, e.key, w);
      Passed(Next(s, e).log, e.key, w) == before + if current.count <= LIMIT && w == current.resetAt then 1 else 0
  {
    var current := Current(s.rate, e.key, e.now);
    PassedStep(s.log, Handled(e.key, e.now, current.resetAt, RetryAfter(current, e.now).None?), e.key, w);
    if Opens(s, e) && w == current.resetAt {
      OpenedIsUnused(s, e);
      UnusedWindow(s.log, e.key, w);
    }
  }

  lemma OwnKeyAfter(s: State, e: Submission)
    requires Inv(s)
    ensures KeyOk(Next(s, e), e.key)
  {
    var current := Current(s.rate, e.key, e.now);
    var h := Handled(e.key, e.now, current.resetAt, RetryAfter(current, e.now).None?);
    assert KeyOk(s, e.key);
    hide Inv, WindowUsed, Passed;
    StillUsed(s.log, h, e.key, current.resetAt);
    forall w ensures Passed(Next(s, e).log, e.key, w) <= LIMIT {
      PassedAfter(s, e, w);
    }
    PassedAfter(s, e, current.resetAt);
  }

  lemma OtherKeyAfter(s: State, e: Submission, key: string)
    requires Inv(s) && key != e.key
    ensures KeyOk(Next(s, e), key)
  {
    var current := Current(s.rate, e.key, e.now);
    var h := Handled(e.key, e.now, current.resetAt, RetryAfter(current, e.now).None?);
    assert KeyOk(s, key);
    if key in s.rate {
      StillUsed(s.log, h, key, s.rate[key].resetAt);
      PassedStep(s.log, h, key, s.rate[key].resetAt);
    }
    hide Inv, WindowUsed, Current;
    forall w ensures Passed(s.log + [h], key, w) <= LIMIT {
      PassedStep(s.log, h, key, w);
    }
  }

  lemma NextKeepsInv(s: State, e: Submission)
    requires Ready(s, e)
    ensures Inv(Next(s, e))
  {
    var next := Next(s, e);
    forall i: nat | i < |next.log| ensures InWindow(next.log[i]) && EntryOk(next, i) {
      EntryAfter(s, e, i);
    }
    NextKeepsApart(s, e);
    forall key ensures KeyOk(next, key) {
      if key == e.key {
        OwnKeyAfter(s, e);
      } else {
        OtherKeyAfter(s, e, key);
      }
    }
    hide InWindow, EntryOk, KeyOk, Apart, Next;
  }

  lemma {:induction false} RunKeepsInv(events: seq<Submission>)
    requires Monotone(events)
    ensures Inv(Run(events))
  {
    if events != [] {
      RunKeepsInv(events[..|events| - 1]);
      NextKeepsInv(Run(events[..|events| - 1]), events[|events| - 1]);
    }
  }

  // -------------------------------------------------------------- theorems

  /** At most sixty submissions of a key pass in one window. */
  lemma AtMostSixtyPerWindow(events: seq<Submission>, key: string, window: int)
    requires Monotone(events)
    ensures Passed(Run(events).log, key, window) <= 60
  {
    RunKeepsInv(events);
    assert KeyOk(Run(events), key);
  }

  lemma {:induction false} TwoWindowsCover(log: seq<Handled>, key: string, from: int, to: int, a: int, b: int)
    requires a != b && forall k :: 0 <= k < |log| && Within(log[k], key, from, to) ==>
      log[k].window == a || log[k].window == b
    ensures PassedWithin(log, key, from, to) <= Passed(log, key, a) + Passed(log, key, b)
  {
    if log != [] {
      TwoWindowsCover(log[..|log| - 1], key, from, to, a, b);
    }
  }

  /** At most 120 submissions of a key pass in any minute. */
  lemma AtMost120PerMinute(events: seq<Submission>, key: string, from: int)
    requires Monotone(events)
    ensures PassedWithin(Run(events).log, key, from, from + 60000) <= 120
  {
    RunKeepsInv(events);
    var log := Run(events).log;
    TwoWindowsSuffice(Run(events), key, from);
    var a, b :| TwoWindows(log, key, from, a, b);
    assert KeyOk(Run(events), key);
    TwoWindowsCover(log, key, from, from + 60000, a, b);
  }

  /** What passes from `from` on within a minute falls into one of these two windows. */
  ghost predicate TwoWindows(log: seq<Handled>, key: string, from: int, a: int, b: int) {
    a != b && forall k :: 0 <= k < |log| && Within(log[k], key, from, from + WINDOW) ==>
      log[k].window == a || log[k].window == b
  }

  /** Three windows do not fit: those that meet the minute end within two minutes of its start. */
  lemma TwoWindowsSuffice(s: State, key: string, from: int)
    requires Inv(s)
    ensures exists a, b :: TwoWindows(s.log, key, from, a, b)
  {
    if i: nat :| i < |s.log| && Within(s.log[i], key, from, from + WINDOW) {
      var a := s.log[i].window;
      if j: nat :| j < |s.log| && Within(s.log[j], key, from, from + WINDOW) && s.log[j].window != a {
        var b := s.log[j].window;
        forall k: nat | k < |s.log| && Within(s.log[k], key, from, from + WINDOW)
          ensures s.log[k].window == a || s.log[k].window == b
        {
          assert Apart(s.log, i, j) && Apart(s.log, i, k) && Apart(s.log, j, k);
          assert InWindow(s.log[i]) && InWindow(s.log[j]) && InWindow(s.log[k]);
        }
        assert TwoWindows(s.log, key, from, a, b);
      } else {
        assert TwoWindows(s.log, key, from, a, a - 1);
      }
    } else {
      assert TwoWindows(s.log, key, from, 0, 1);
    }
  }

  /** A rejection counts, but does not move the end of the window. */
  lemma RejectionKeepsTheWindow(s: State, e: Submission)
    requires RetryAfter(Current(s.rate, e.key, e.now), e.now).Some?
    ensures e.key in s.rate && Next(s, e).rate[e.key].resetAt == s.rate[e.key].resetAt
    ensures e.now < s.rate[e.key].resetAt
  {
  }

  function After(s: State, events: seq<Submission>): State {
    if events == [] then s else Next(After(s, events[..|events| - 1]), events[|events| - 1])
  }

  /** Every submission of the key is rejected when its turn comes. */
  ghost predicate AllRejected(s: State, events: seq<Submission>, key: string) {
    forall i :: 0 <= i < |events| && events[i].key == key ==>
      RetryAfter(Current(After(s, events[..i]).rate, key, events[i].now), events[i].now).Some?
  }

  /** However many submissions are rejected, and whatever other clients do, the end of the window does not move. */
  lemma {:induction false} RejectionsNeverMoveTheReset(s: State, events: seq<Submission>, key: string)
    requires key in s.rate && AllRejected(s, events, key)
    ensures key in After(s, events).rate && After(s, events).rate[key].resetAt == s.rate[key].resetAt
  {
    if events != [] {
      var n := |events| - 1;
      var rest, e := events[..n], events[n];
      forall i | 0 <= i < n && rest[i].key == key
        ensures RetryAfter(Current(After(s, rest[..i]).rate, key, rest[i].now), rest[i].now).Some?
      {
        assert rest[..i] == events[..i] && rest[i] == events[i];
      }
      RejectionsNeverMoveTheReset(s, rest, key);
      if e.key == key {
        RejectionKeepsTheWindow(After(s, rest), e);
      }
    }
  }

  lemma {:induction false} OtherKeysDoNotMatter(s: State, events: seq<Submission>, key: string)
    requires key in s.rate && forall i :: 0 <= i < |events| ==> events[i].key != key
    ensures key in After(s, events).rate && After(s, events).rate[key] == s.rate[key]
  {
    if events != [] {
      OtherKeysDoNotMatter(s, events[..|events| - 1], key);
    }
  }

  /**
   * A rejected client that is alone on its key and waits the seconds it was told is admitted;
   * a second less can be too little.
   */
  lemma {:induction false} RetryAfterIsRight(s: State, e: Submission, others: seq<Submission>, later: int)
    requires RetryAfter(Current(s.rate, e.key, e.now), e.now).Some?
    requires forall i :: 0 <= i < |others| ==> others[i].key != e.key
    ensures var wait := RetryAfter(Current(s.rate, e.key, e.now), e.now).value;
      var t := After(Next(s, e), others);
      && wait >= 1
      && (later >= e.now + 1000 * wait ==> RetryAfter(Current(t.rate, e.key, later), later).None?)
      && (later <= e.now + 1000 * (wait - 1) ==> RetryAfter(Current(t.rate, e.key, later), later).Some?)
  {
    OtherKeysDoNotMatter(Next(s, e), others, e.key);
  }

  // ------------------------------------------------- the first sixty pass

  /** Submissions of a key in one window, admitted or not. */
  function Made(log: seq<Handled>, key: string, window: int): nat {
    |set i: nat | i < |log| && log[i].key == key && log[i].window == window|
  }

  lemma MadeStep(log: seq<Handled>, h: Handled, key: string, window: int)
    ensures Made(log + [h], key, window)
      == Made(log, key, window) + if h.key == key && h.window == window then 1 else 0
  {
    var all, n: nat := log + [h], |log|;
    var before := set i: nat | i < |log| && log[i].key == key && log[i].window == window;
    var after := set i: nat | i < |all| && all[i].key == key && all[i].window == window;
    if h.key == key && h.window == window {
      assert after == before + {n} && n !in before;
    } else {
      assert after == before;
    }
  }

  /** The entry of a key counts the submissions of its latest window; a key without an entry has made none. */
  ghost predicate Counted(s: State, key: string) {
    if key in s.rate then s.rate[key].count == Made(s.log, key, s.rate[key].resetAt)
    else forall i :: 0 <= i < |s.log| ==> s.log[i].key != key
  }

  lemma NoneMade(log: seq<Handled>, key: string, window: int)
    requires !WindowUsed(log, key, window)
    ensures Made(log, key, window) == 0
  {
    assert (set i: nat | i < |log| && log[i].key == key && log[i].window == window) == {};
  }

  lemma NextCounts(s: State, e: Submission, key: string)
    requires Inv(s) && Counted(s, key)
    ensures Counted(Next(s, e), key)
  {
    var current := Current(s.rate, e.key, e.now);
    var h := Handled(e.key, e.now, current.resetAt, RetryAfter(current, e.now).None?);
    if key == e.key {
      if Opens(s, e) {
        OpenedIsUnused(s, e);
        NoneMade(s.log, key, current.resetAt);
      }
      MadeStep(s.log, h, key, current.resetAt);
    } else if key in s.rate {
      MadeStep(s.log, h, key, s.rate[key].resetAt);
    }
    hide Made, Inv, WindowUsed;
  }

  lemma {:induction false} RunCounts(events: seq<Submission>, key: string)
    requires Monotone(events)
    ensures Counted(Run(events), key)
  {
    if events != [] {
      var n := |events| - 1;
      RunCounts(events[..n], key);
      RunKeepsInv(events[..n]);
      NextCounts(Run(events[..n]), events[n], key);
    }
  }

  lemma {:induction false} LogPrefix(events: seq<Submission>, i: nat)
    requires i < |events|
    ensures Run(events).log[..i] == Run(events[..i]).log
    ensures Run(events).log[i] == Next(Run(events[..i]), events[i]).log[i]
  {
    var n := |events| - 1;
    if i < n {
      LogPrefix(events[..n], i);
      assert events[..n][..i] == events[..i];
    } else {
      assert events[..i] == events[..n];
    }
  }

  /**
   * A submission is admitted exactly if fewer than sixty of its key came before it in its window.
   * That window is the one still open for its key or else the minute that starts with it.
   */
  lemma TheFirstSixtyPass(events: seq<Submission>, i: nat)
    requires Monotone(events) && i < |events|
    ensures var log := Run(events).log;
      && (log[i].admitted <==> Made(log[..i], log[i].key, log[i].window) < 60)
      && log[i].now < log[i].window <= log[i].now + 60000
      && (log[i].window < log[i].now + 60000 ==> WindowUsed(log[..i], log[i].key, log[i].window))
      && forall j :: 0 <= j < i && log[j].key == log[i].key && log[j].window > log[i].now ==>
        log[j].window == log[i].window
  {
    hide Run, Next, Inv, Counted, Made, WindowUsed;
    LogPrefix(events, i);
    RunKeepsInv(events);
    RunKeepsInv(events[..i]);
    RunCounts(events[..i], events[i].key);
    SubmissionCounts(Run(events[..i]), events[i]);
    SameWindow(Run(events), i);
  }

  /** In its window, and in that of every earlier submission of the key whose window is still open. */
  lemma SameWindow(s: State, i: nat)
    requires Inv(s) && i < |s.log|
    ensures s.log[i].now < s.log[i].window <= s.log[i].now + 60000
    ensures forall j :: 0 <= j < i && s.log[j].key == s.log[i].key && s.log[j].now <= s.log[i].now < s.log[j].window ==>
      s.log[j].window == s.log[i].window
  {
    assert InWindow(s.log[i]);
    forall j: nat | j < i && s.log[j].key == s.log[i].key && s.log[j].now <= s.log[i].now < s.log[j].window
      ensures s.log[j].window == s.log[i].window
    {
      assert Apart(s.log, i, j) && InWindow(s.log[j]);
    }
  }

  lemma SubmissionCounts(s: State, e: Submission)
    requires Inv(s) && Counted(s, e.key)
    ensures var h := Next(s, e).log[|s.log|];
      && (h.admitted <==> Made(s.log, e.key, h.window) < 60)
      && (h.window == e.now + 60000 || WindowUsed(s.log, e.key, h.window))
  {
    if Opens(s, e) {
      OpenedIsUnused(s, e);
      NoneMade(s.log, e.key, e.now + WINDOW);
    } else {
      assert KeyOk(s, e.key);
    }
  }
}
