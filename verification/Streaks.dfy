/**
 * The streaks of `getStats` (src/application/public-api.ts:329-354): the loops over completed
 * dates, against the calendar days those dates stand for.
 */
module Streaks {
  import opened Common
  import opened Sorting
  import opened TextOrder
  import opened Grouping
  import opened Calendar

  // -------------------------------------------------------- completed dates

  datatype Slot = Slot(versionId: string, date: string)

  /** A valid official attempt, with the Pacific date of its creation. */
  datatype Official = Official(versionId: string, date: string)

  predicate DatedSlots(slots: seq<Slot>) { forall i :: 0 <= i < |slots| ==> IsDate(slots[i].date) }

  /** What the map from versions to attempts holds: the last attempt of a version stays. */
  function LastAttempt(attempts: seq<Official>, v: string): Option<Official> {
    if attempts == [] then None
    else if attempts[|attempts| - 1].versionId == v then Some(attempts[|attempts| - 1])
    else LastAttempt(attempts[..|attempts| - 1], v)
  }

  predicate AnsweredOn(attempts: seq<Official>, v: string, date: string) {
    LastAttempt(attempts, v).Some? && LastAttempt(attempts, v).value.date == date
  }

  /** Every published slot of the date was answered on that very date, and there is one. */
  predicate Completed(slots: seq<Slot>, attempts: seq<Official>, date: string) {
    && (exists i :: 0 <= i < |slots| && slots[i].date == date)
    && (forall i :: 0 <= i < |slots| && slots[i].date == date ==> AnsweredOn(attempts, slots[i].versionId, date))
  }

  function CompletedSet(slots: seq<Slot>, attempts: seq<Official>): set<string> {
    set i | 0 <= i < |slots| && Completed(slots, attempts, slots[i].date) :: slots[i].date
  }

  /** One valid official attempt a version. */
  ghost predicate OneAttempt(attempts: seq<Official>) {
    forall i, j :: 0 <= i < j < |attempts| ==> attempts[i].versionId != attempts[j].versionId
  }

  /** There is an attempt on the version, and the last one was made on that date. */
  predicate LastMadeOn(attempts: seq<Official>, v: string, date: string) {
    exists i :: 0 <= i < |attempts| && attempts[i].versionId == v && attempts[i].date == date
      && forall j :: i < j < |attempts| ==> attempts[j].versionId != v
  }

  lemma {:induction false} AnsweredMeans(attempts: seq<Official>, v: string, date: string)
    ensures AnsweredOn(attempts, v, date) <==> LastMadeOn(attempts, v, date)
  {
    if attempts != [] {
      var n := |attempts| - 1;
      var rest := attempts[..n];
      if attempts[n].versionId != v {
        AnsweredMeans(rest, v, date);
        if LastMadeOn(rest, v, date) {
          var i :| 0 <= i < n && rest[i].versionId == v && rest[i].date == date
            && forall j :: i < j < n ==> rest[j].versionId != v;
          assert attempts[i] == rest[i];
          assert forall j :: i < j < n ==> attempts[j] == rest[j];
        }
        if LastMadeOn(attempts, v, date) {
          var i :| 0 <= i < |attempts| && attempts[i].versionId == v && attempts[i].date == date
            && forall j :: i < j < |attempts| ==> attempts[j].versionId != v;
          assert rest[i] == attempts[i];
          assert forall j :: i < j < n ==> attempts[j] == rest[j];
        }
      }
    }
  }

  /**
   * A date is completed exactly when it has a published slot and every one of its slots has an
   * attempt made on that very date: an attempt of another date does not count.
   */
  lemma CompletedExactly(slots: seq<Slot>, attempts: seq<Official>, date: string)
    requires OneAttempt(attempts)
    ensures date in CompletedSet(slots, attempts) <==>
      && (exists i :: 0 <= i < |slots| && slots[i].date == date)
      && (forall i :: 0 <= i < |slots| && slots[i].date == date ==> Official(slots[i].versionId, date) in attempts)
  {
    forall v ensures AnsweredOn(attempts, v, date) <==> Official(v, date) in attempts {
      AnsweredMeans(attempts, v, date);
      if Official(v, date) in attempts {
        var i :| 0 <= i < |attempts| && attempts[i] == Official(v, date);
        assert forall j :: i < j < |attempts| ==> attempts[j].versionId != v;
      }
    }
    hide AnsweredOn;
  }

  function ByDate(): Slot -> string { (s: Slot) => s.date }

  /** The slots of a date, in their given order. */
  function SlotsOf(slots: seq<Slot>, date: string): seq<Slot> { Bucket(slots, ByDate(), date) }

  // --------------------------------------------------------- dates in order

  /** Dates in ascending order, each once. */
  ghost predicate Ascending(dates: seq<string>) {
    && (forall i :: 0 <= i < |dates| ==> IsDate(dates[i]))
    && (forall i, j :: 0 <= i < j < |dates| ==> DayOf(dates[i]) < DayOf(dates[j]))
  }

  lemma SortedDatesAscend(dates: seq<string>)
    requires Distinct(dates) && forall i :: 0 <= i < |dates| ==> IsDate(dates[i])
    ensures Ascending(Sort(LexLe(), dates))
    ensures forall d :: d in Sort(LexLe(), dates) <==> d in dates
  {
    hide DayOf, LexFrom, IsDate;
    var sorted := Sort(LexLe(), dates);
    LexLeTotalOrder();
    SortSorted(LexLe(), dates);
    SortPermutes(LexLe(), dates);
    DistinctPermutation(dates, sorted);
    forall i | 0 <= i < |sorted| ensures IsDate(sorted[i]) {
      assert sorted[i] in dates;
    }
    forall i, j | 0 <= i < j < |sorted|
      ensures IsDate(sorted[i]) && IsDate(sorted[j]) && Earlier(sorted[i], sorted[j])
    {
      assert LexLe()(sorted[i], sorted[j]);
      TextOrderIsDayOrder(sorted[i], sorted[j]);
    }
  }

  predicate Earlier(a: string, b: string) { IsDate(a) && IsDate(b) && DayOf(a) < DayOf(b) }

  predicate AllAnswered(game: seq<Slot>, attempts: seq<Official>, date: string) {
    |game| > 0 && forall i :: 0 <= i < |game| ==> AnsweredOn(attempts, game[i].versionId, date)
  }

  lemma CompletedByGame(slots: seq<Slot>, attempts: seq<Official>, date: string)
    requires DatedSlots(slots)
    ensures date in CompletedSet(slots, attempts) <==> AllAnswered(SlotsOf(slots, date), attempts, date)
    ensures date in CompletedSet(slots, attempts) ==> IsDate(date)
  {
    hide IsDate, AnsweredOn, Bucket;
    var game := SlotsOf(slots, date);
    BucketHolds(slots, ByDate(), date);
    if AllAnswered(game, attempts, date) {
      assert game[0] in game;
      forall i | 0 <= i < |slots| && slots[i].date == date ensures AnsweredOn(attempts, slots[i].versionId, date) {
        assert slots[i] in game;
      }
    }
    if Completed(slots, attempts, date) {
      var i :| 0 <= i < |slots| && slots[i].date == date;
      assert slots[i] in game;
      forall j | 0 <= j < |game| ensures AnsweredOn(attempts, game[j].versionId, date) {
        assert game[j] in slots;
      }
    }
  }

  method CompletedDates(slots: seq<Slot>, attempts: seq<Official>) returns (dates: seq<string>)
    requires DatedSlots(slots)
    ensures Ascending(dates)
    ensures forall d :: d in dates <==> d in CompletedSet(slots, attempts)
  {
    hide IsDate, Completed, Bucket, Sort, CompletedSet, AnsweredOn;
    var order, games := GroupBy(slots, ByDate());
    var kept := [];
    for k := 0 to |order|
      invariant Distinct(kept)
      invariant forall d :: d in kept <==> d in order[..k] && d in CompletedSet(slots, attempts)
    {
      var date := order[k];
      CompletedByGame(slots, attempts, date);
      assert date !in order[..k];
      assert order[..k + 1] == order[..k] + [date];
      if AllAnswered(games[date], attempts, date) {
        kept := kept + [date];
      }
    }
    assert order[..|order|] == order;
    forall d ensures d in kept <==> d in CompletedSet(slots, attempts) {
      CompletedByGame(slots, attempts, d);
      BucketHolds(slots, ByDate(), d);
      if d in CompletedSet(slots, attempts) {
        assert SlotsOf(slots, d)[0] in SlotsOf(slots, d);
      }
    }
    forall i | 0 <= i < |kept| ensures IsDate(kept[i]) {
      CompletedByGame(slots, attempts, kept[i]);
    }
    dates := Sort(LexLe(), kept);
    SortedDatesAscend(kept);
  }

  // ----------------------------------------------------------------- runs

  /** The `n` days ending with `last` are all in the set. */
  ghost predicate IsRun(days: set<int>, last: int, n: nat) {
    forall x :: last - n < x <= last ==> x in days
  }

  /** And the day before them is not. */
  ghost predicate IsWholeRun(days: set<int>, last: int, n: nat) { IsRun(days, last, n) && last - n !in days }

  /** `n` is the length of the longest run of consecutive days. */
  ghost predicate IsLongestRun(days: set<int>, n: nat) {
    (exists last :: IsRun(days, last, n)) && forall last, m: nat :: IsRun(days, last, m) ==> m <= n
  }

  /** The days that the dates stand for. */
  ghost function DaySet(dates: seq<string>): set<int>
  {
    set i | 0 <= i < |dates| :: DayOf(dates[i])
  }

  /** A later day joins the run of the previous last day exactly when it is the next day. */
  lemma LaterDay(days: set<int>, last: int, running: nat, best: nat, day: int)
    requires last in days && day > last && forall x :: x in days ==> x <= last
    requires IsWholeRun(days, last, running) && IsLongestRun(days, best)
    ensures var grown := if day == last + 1 then running + 1 else 1;
      && IsWholeRun(days + {day}, day, grown)
      && IsLongestRun(days + {day}, if grown > best then grown else best)
  {
    var next := days + {day};
    var grown := if day == last + 1 then running + 1 else 1;
    assert IsWholeRun(next, day, grown);
    var most := if grown > best then grown else best;
    forall l, m: nat | IsRun(next, l, m) ensures m <= most {
      if m > 0 {
        assert l in next;
        assert day - grown !in next;
        if l != day {
          assert IsRun(days, l, m);
        }
      }
    }
    var l :| IsRun(days, l, best);
    assert IsRun(next, l, best);
  }

  lemma FirstDays(day: int)
    ensures IsLongestRun({}, 0) && IsWholeRun({day}, day, 1) && IsLongestRun({day}, 1)
  {
    var none: set<int> := {};
    assert IsRun(none, 0, 0);
    forall l, m: nat | IsRun(none, l, m) ensures m <= 0 {
      assert m > 0 ==> l in none;
    }
    var one := {day};
    assert IsRun(one, day, 1);
    forall l, m: nat | IsRun(one, l, m) ensures m <= 1 {
      assert m > 0 ==> l in one;
      assert m > 1 ==> l - 1 in one;
    }
  }

  method BestStreak(dates: seq<string>) returns (best: nat)
    requires Ascending(dates)
    ensures IsLongestRun(DaySet(dates), best)
  {
    hide AddPacificDays, DayOf, IsDate;
    best := 0;
    var running := 0;
    var previous: Option<string> := None;
    FirstDays(0);
    assert DaySet(dates[..0]) == {};
    for k := 0 to |dates|
      invariant IsLongestRun(DaySet(dates[..k]), best)
      invariant previous == if k == 0 then None else Some(dates[k - 1])
      invariant k > 0 ==> IsWholeRun(DaySet(dates[..k]), DayOf(dates[k - 1]), running)
    {
      var date := dates[k];
      ghost var days, day := DaySet(dates[..k]), DayOf(date);
      assert DaySet(dates[..k + 1]) == days + {day} by {
        assert dates[..k + 1] == dates[..k] + [date];
      }
      if k > 0 {
        NextDate(dates[k - 1], date);
        assert DayOf(dates[k - 1]) in days by {
          assert dates[..k][k - 1] == dates[k - 1];
        }
        LaterDay(days, DayOf(dates[k - 1]), running, best, day);
      } else {
        assert days + {day} == {day};
        FirstDays(day);
      }
      running := if previous.Some? && AddPacificDays(previous.value, 1) == Ok(date) then running + 1 else 1;
      best := if running > best then running else best;
      previous := Some(date);
    }
    assert dates[..|dates|] == dates;
  }

  /** One day added is the date exactly when the date is the next day. */
  lemma NextDate(a: string, b: string)
    requires IsDate(a) && IsDate(b)
    ensures AddPacificDays(a, 1) == Ok(b) <==> DayOf(b) == DayOf(a) + 1
  {
    hide IsoText, FromDay, AddPacificDays;
    AddPacificDaysMoves(a, 1);
    DateText(a);
    DateText(b);
    DayTextIsDate(DayOf(a) + 1);
  }

  /** The run that counts as current: the one that ends today, or yesterday as long as today is open. */
  ghost predicate IsCurrentRun(days: set<int>, today: int, n: nat) {
    if today in days then IsWholeRun(days, today, n) else IsWholeRun(days, today - 1, n)
  }

  method CurrentStreak(dates: set<string>, today: string) returns (current: nat)
    requires IsDate(today) && forall d :: d in dates ==> IsDate(d)
    ensures IsCurrentRun(DaysOf(dates), DayOf(today), current)
  {
    hide AddPacificDays, DayOf, IsDate, IsoText, FromDay;
    ghost var days := DaysOf(dates);
    DateText(today);
    AddPacificDaysMoves(today, -1);
    var cursor := if today in dates then today else AddPacificDays(today, -1).value;
    DaysOfHolds(dates, DayOf(today));
    ghost var start := if DayOf(today) in days then DayOf(today) else DayOf(today) - 1;
    ghost var day := start;
    current := 0;
    while cursor in dates
      invariant day == start - current && cursor == DayText(day) && day <= LAST_DAY
      invariant IsRun(days, start, current)
      decreases day - FIRST_DAY
    {
      DateText(cursor);
      DayTextIsDate(day);
      DaysOfHolds(dates, day);
      AddPacificDaysMoves(cursor, -1);
      current := current + 1;
      cursor := AddPacificDays(cursor, -1).value;
      day := day - 1;
    }
    DaysOfHolds(dates, day);
  }

  ghost function DaysOf(dates: set<string>): set<int>
  {
    set d | d in dates :: DayOf(d)
  }

  lemma DaysOfHolds(dates: set<string>, day: int)
    requires forall d :: d in dates ==> IsDate(d)
    ensures day in DaysOf(dates) <==> DayText(day) in dates
  {
    hide IsoText, FromDay;
    DayTextIsDate(day);
    forall d | d in dates ensures DayText(DayOf(d)) == d {
      DateText(d);
    }
    if DayText(day) in dates {
      assert DayOf(DayText(day)) == day;
    }
  }

  // -------------------------------------------------------------- the whole

  /** The streak part of `getStats`. */
  method GetStats(slots: seq<Slot>, attempts: seq<Official>, today: string)
    returns (current: nat, best: nat, completed: nat)
    requires DatedSlots(slots) && IsDate(today)
    ensures forall d :: d in CompletedSet(slots, attempts) ==> IsDate(d)
    ensures var days := DaysOf(CompletedSet(slots, attempts));
      && completed == |days| == |CompletedSet(slots, attempts)|
      && IsLongestRun(days, best)
      && IsCurrentRun(days, DayOf(today), current)
      && current <= best
  {
    hide CompletedSet, DayOf, IsDate;
    var dates := CompletedDates(slots, attempts);
    var done := set d | d in dates;
    assert done == CompletedSet(slots, attempts);
    best := BestStreak(dates);
    current := CurrentStreak(done, today);
    completed := |dates|;
    DaysCount(dates);
    DatesCount(dates);
    assert DaySet(dates) == DaysOf(done);
  }

  lemma {:induction false} DaysCount(dates: seq<string>)
    requires Ascending(dates)
    ensures |DaySet(dates)| == |dates|
  {
    hide DayOf, IsDate;
    if dates == [] {
      assert DaySet(dates) == {};
    } else {
      var n := |dates| - 1;
      DaysCount(dates[..n]);
      assert dates == dates[..n] + [dates[n]];
      assert DaySet(dates) == DaySet(dates[..n]) + {DayOf(dates[n])};
    }
  }

  lemma {:induction false} DatesCount(dates: seq<string>)
    requires Ascending(dates)
    ensures |set d | d in dates| == |dates|
  {
    hide DayOf, IsDate;
    if dates != [] {
      var n := |dates| - 1;
      DatesCount(dates[..n]);
      assert dates == dates[..n] + [dates[n]];
      assert (set d | d in dates) == (set d | d in dates[..n]) + {dates[n]};
    } else {
      assert (set d | d in dates) == {};
    }
  }

  /** Completing today lengthens the current streak by one; the best streak never drops when a day is added. */
  lemma CompletingTodayAddsOne(days: set<int>, today: int, current: nat, best: nat)
    requires today !in days && IsCurrentRun(days, today, current) && IsLongestRun(days, best)
    ensures IsCurrentRun(days + {today}, today, current + 1)
    ensures forall b: nat :: IsLongestRun(days + {today}, b) ==> best <= b
  {
    var next := days + {today};
    forall b: nat | IsLongestRun(next, b) ensures best <= b {
      var l :| IsRun(days, l, best);
      assert IsRun(next, l, best);
    }
  }
}
