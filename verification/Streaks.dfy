// Reading streaks: the batch scan of ReadingStatsStore::rebuildSummaryCache
// (src/ReadingStatsStore.cpp) and the incremental tracker of AchievementsStore::recordSessionEnded
// (src/AchievementsStore.cpp), against one definition on sets of days.
module Streaks {
  import opened ReadingDays

  // ----- the definition -----

  // How many consecutive days of s end at day d.
  function RunEndingAt(s: set<nat>, d: nat): nat {
    if d !in s then 0 else if d == 0 then 1 else 1 + RunEndingAt(s, d - 1)
  }

  // m is the length of the longest run of consecutive days in s.
  ghost predicate IsLongestRun(s: set<nat>, m: nat) {
    && (forall d :: d in s ==> RunEndingAt(s, d) <= m)
    && (m == 0 || exists d :: d in s && RunEndingAt(s, d) == m)
  }

  lemma LongestRunUnique(s: set<nat>, m: nat, n: nat)
    requires IsLongestRun(s, m) && IsLongestRun(s, n)
    ensures m == n
  {
    if m > 0 {
      var d :| d in s && RunEndingAt(s, d) == m;
      assert m <= n;
    }
    if n > 0 {
      var e :| e in s && RunEndingAt(s, e) == n;
      assert n <= m;
    }
  }

  // What RunEndingAt counts: that many days up to d are in the set, and the one before them is not.
  lemma {:induction false} RunIsMaximal(s: set<nat>, d: nat)
    ensures var n := RunEndingAt(s, d);
            && n <= d + 1
            && (forall e :: d - n < e <= d ==> e in s)
            && (n <= d ==> d - n !in s)
  {
    if d in s && d > 0 {
      RunIsMaximal(s, d - 1);
    }
  }

  // Days after d do not matter to the run that ends at d.
  lemma {:induction false} RunIgnoresLater(s: set<nat>, t: set<nat>, d: nat)
    requires forall e :: e <= d ==> (e in s <==> e in t)
    ensures RunEndingAt(s, d) == RunEndingAt(t, d)
  {
    if d in s && d > 0 {
      RunIgnoresLater(s, t, d - 1);
    }
  }

  // A new latest day either prolongs the last run or starts one of its own.
  lemma LongestRunGrows(s: set<nat>, d: nat, m: nat)
    requires IsLongestRun(s, m) && forall e :: e in s ==> e < d
    ensures var run := if d > 0 then 1 + RunEndingAt(s, d - 1) else 1;
            && RunEndingAt(s + {d}, d) == run
            && IsLongestRun(s + {d}, if m < run then run else m)
  {
    var t := s + {d};
    var run := if d > 0 then 1 + RunEndingAt(s, d - 1) else 1;
    if d > 0 { RunIgnoresLater(s, t, d - 1); }
    forall e | e in s ensures RunEndingAt(t, e) == RunEndingAt(s, e) {
      RunIgnoresLater(s, t, e);
    }
    assert d in t && RunEndingAt(t, d) == run;
    if m >= run && m > 0 {
      var e :| e in s && RunEndingAt(s, e) == m;
      assert e in t && RunEndingAt(t, e) == m;
    }
  }

  // ----- the batch scan -----

  ghost predicate Increasing(days: seq<nat>) {
    forall j, k :: 0 <= j < k < |days| ==> days[j] < days[k]
  }

  function DaySet(days: seq<nat>): set<nat> {
    set k | 0 <= k < |days| :: days[k]
  }

  lemma DaySetGrows(days: seq<nat>, n: nat)
    requires n < |days|
    ensures DaySet(days[..n + 1]) == DaySet(days[..n]) + {days[n]}
  {
    var s, t := DaySet(days[..n]), DaySet(days[..n + 1]);
    forall d | d in t ensures d in s + {days[n]} {
      var k :| 0 <= k < |days[..n + 1]| && days[..n + 1][k] == d;
      assert k < n ==> days[..n][k] == d;
    }
    forall d | d in s + {days[n]} ensures d in t {
      if d == days[n] {
        assert days[..n + 1][n] == d;
      } else {
        var k :| 0 <= k < |days[..n]| && days[..n][k] == d;
        assert days[..n + 1][k] == d;
      }
    }
  }

  // Between neighbours of an increasing list there are no days.
  lemma RunBeforeGap(days: seq<nat>, n: nat)
    requires Increasing(days) && 0 < n < |days|
    ensures days[n] > 0
    ensures RunEndingAt(DaySet(days[..n]), days[n] - 1)
         == if days[n] == days[n - 1] + 1 then RunEndingAt(DaySet(days[..n]), days[n - 1]) else 0
  {
    if days[n] != days[n - 1] + 1 {
      forall d | d in DaySet(days[..n]) ensures d <= days[n - 1] {
        var k :| 0 <= k < |days[..n]| && days[..n][k] == d;
        assert k < n - 1 ==> days[k] < days[n - 1];
      }
    }
  }

  // The longest streak: one pass over the goal-met days.
  method MaxStreak(eligibleDays: seq<nat>) returns (maxStreak: nat)
    requires Increasing(eligibleDays)
    ensures IsLongestRun(DaySet(eligibleDays), maxStreak)
  {
    hide IsLongestRun, DaySet, RunEndingAt;
    EmptyRun();
    maxStreak := 0;
    if eligibleDays != [] {
      maxStreak := 1;
      var currentMaxStreak := 1;
      FirstRun(eligibleDays);
      var index := 1;
      while index < |eligibleDays|
        invariant 1 <= index <= |eligibleDays|
        invariant IsLongestRun(DaySet(eligibleDays[..index]), maxStreak)
        invariant currentMaxStreak == RunEndingAt(DaySet(eligibleDays[..index]), eligibleDays[index - 1])
      {
        RunBeforeGap(eligibleDays, index);
        EarlierDays(eligibleDays, index);
        LongestRunGrows(DaySet(eligibleDays[..index]), eligibleDays[index], maxStreak);
        DaySetGrows(eligibleDays, index);
        if eligibleDays[index] == eligibleDays[index - 1] + 1 {
          currentMaxStreak := currentMaxStreak + 1;
        } else {
          currentMaxStreak := 1;
        }
        maxStreak := if maxStreak < currentMaxStreak then currentMaxStreak else maxStreak;
        index := index + 1;
      }
      assert eligibleDays[..index] == eligibleDays;
    }
  }

  lemma EmptyRun()
    ensures IsLongestRun(DaySet([]), 0)
  {
  }

  lemma FirstRun(days: seq<nat>)
    requires days != []
    ensures IsLongestRun(DaySet(days[..1]), 1) && RunEndingAt(DaySet(days[..1]), days[0]) == 1
  {
    assert DaySet(days[..1]) == {days[0]};
  }

  lemma EarlierDays(days: seq<nat>, n: nat)
    requires Increasing(days) && n < |days|
    ensures forall e :: e in DaySet(days[..n]) ==> e < days[n]
  {
  }

  // The run that ends at the latest day, counted backwards.
  method LatestRun(eligibleDays: seq<nat>) returns (length: nat)
    requires Increasing(eligibleDays) && eligibleDays != []
    ensures length == RunEndingAt(DaySet(eligibleDays), eligibleDays[|eligibleDays| - 1])
  {
    hide DaySet, RunEndingAt;
    length := 1;
    var index := |eligibleDays| - 1;
    assert eligibleDays[..index + 1] == eligibleDays;
    while index > 0
      invariant 0 <= index < |eligibleDays|
      invariant RunEndingAt(DaySet(eligibleDays), eligibleDays[|eligibleDays| - 1])
             == length - 1 + RunEndingAt(DaySet(eligibleDays[..index + 1]), eligibleDays[index])
    {
      BackOneDay(eligibleDays, index);
      if eligibleDays[index] != eligibleDays[index - 1] + 1 {
        return;
      }
      length := length + 1;
      index := index - 1;
    }
    FirstRun(eligibleDays);
  }

  lemma BackOneDay(days: seq<nat>, n: nat)
    requires Increasing(days) && 0 < n < |days|
    ensures RunEndingAt(DaySet(days[..n + 1]), days[n])
         == if days[n] == days[n - 1] + 1 then 1 + RunEndingAt(DaySet(days[..n]), days[n - 1]) else 1
  {
    hide DaySet;
    DaySetGrows(days, n);
    EarlierDays(days, n);
    RunBeforeGap(days, n);
    RunIgnoresLater(DaySet(days[..n]), DaySet(days[..n + 1]), days[n] - 1);
  }

  // The current streak as of a reference day: the latest run, if it ends today or yesterday.
  ghost predicate IsCurrentStreak(s: set<nat>, referenceDay: nat, n: nat) {
    if s == {} then n == 0
    else exists latest :: latest in s && (forall d :: d in s ==> d <= latest)
           && n == if latest == referenceDay || latest + 1 == referenceDay then RunEndingAt(s, latest) else 0
  }

  method CurrentStreak(eligibleDays: seq<nat>, referenceDay: nat) returns (n: nat)
    requires Increasing(eligibleDays)
    ensures IsCurrentStreak(DaySet(eligibleDays), referenceDay, n)
  {
    hide DaySet;
    n := 0;
    LatestDay(eligibleDays);
    if eligibleDays != [] {
      var latest := eligibleDays[|eligibleDays| - 1];
      if latest == referenceDay || (referenceDay > 0 && latest + 1 == referenceDay) {
        n := LatestRun(eligibleDays);
      }
    }
  }

  lemma LatestDay(days: seq<nat>)
    requires Increasing(days)
    ensures days == [] <==> DaySet(days) == {}
    ensures days != [] ==> days[|days| - 1] in DaySet(days) && forall d :: d in DaySet(days) ==> d <= days[|days| - 1]
  {
    if days != [] {
      assert days[|days| - 1] in DaySet(days);
      forall d | d in DaySet(days) ensures d <= days[|days| - 1] {
        var k :| 0 <= k < |days| && days[k] == d;
        assert k < |days| - 1 ==> days[k] < days[|days| - 1];
      }
    }
  }

  lemma CurrentStreakUnique(s: set<nat>, referenceDay: nat, m: nat, n: nat)
    requires IsCurrentStreak(s, referenceDay, m) && IsCurrentStreak(s, referenceDay, n)
    ensures m == n
  {
    if s != {} {
      var a :| a in s && (forall d :: d in s ==> d <= a)
               && m == if a == referenceDay || a + 1 == referenceDay then RunEndingAt(s, a) else 0;
      var b :| b in s && (forall d :: d in s ==> d <= b)
               && n == if b == referenceDay || b + 1 == referenceDay then RunEndingAt(s, b) else 0;
      assert a <= b <= a;
    }
  }

  // ----- the incremental tracker -----

  datatype Tracker = Tracker(goalDaysCount: nat, currentGoalStreak: nat, maxGoalStreak: nat, lastGoalDayOrdinal: nat)

  // One session's end: the day it falls on, and whether that day's goal is met by then.
  datatype DayEvent = DayEvent(dayOrdinal: nat, goalMet: bool)

  const FRESH := Tracker(0, 0, 0, 0)

  function Track(t: Tracker, e: DayEvent): Tracker {
    if e.dayOrdinal != 0 && e.goalMet && t.lastGoalDayOrdinal != e.dayOrdinal then
      var streak := if t.lastGoalDayOrdinal != 0 && t.lastGoalDayOrdinal + 1 == e.dayOrdinal
                    then t.currentGoalStreak + 1 else 1;
      Tracker(t.goalDaysCount + 1, streak, if t.maxGoalStreak < streak then streak else t.maxGoalStreak, e.dayOrdinal)
    else t
  }

  function TrackAll(t: Tracker, events: seq<DayEvent>): Tracker {
    if events == [] then t else Track(TrackAll(t, events[..|events| - 1]), events[|events| - 1])
  }

  // The days on which the goal was met.
  function GoalDays(events: seq<DayEvent>): set<nat> {
    set k | 0 <= k < |events| && events[k].goalMet && events[k].dayOrdinal != 0 :: events[k].dayOrdinal
  }

  // A session's end on a goal-met day; the others leave the tracker alone.
  predicate Counts(e: DayEvent) {
    e.goalMet && e.dayOrdinal != 0
  }

  // The goal-met days come in order.
  ghost predicate GoalOrdered(events: seq<DayEvent>) {
    forall j, k :: 0 <= j < k < |events| && Counts(events[j]) && Counts(events[k]) ==>
                     events[j].dayOrdinal <= events[k].dayOrdinal
  }

  // The tracker's fields are those of a batch computation over s.
  ghost predicate Agrees(t: Tracker, s: set<nat>) {
    && 0 !in s
    && t.goalDaysCount == |s|
    && IsLongestRun(s, t.maxGoalStreak)
    && (s == {} ==> t.lastGoalDayOrdinal == 0)
    && (s != {} ==> t.lastGoalDayOrdinal in s && (forall d :: d in s ==> d <= t.lastGoalDayOrdinal)
                    && t.currentGoalStreak == RunEndingAt(s, t.lastGoalDayOrdinal))
  }

  lemma TrackAgrees(t: Tracker, s: set<nat>, e: DayEvent)
    requires Agrees(t, s) && forall d :: d in s ==> d <= e.dayOrdinal
    ensures Agrees(Track(t, e), if e.goalMet && e.dayOrdinal != 0 then s + {e.dayOrdinal} else s)
  {
    if e.goalMet && e.dayOrdinal != 0 {
      if e.dayOrdinal in s {
        assert t.lastGoalDayOrdinal == e.dayOrdinal;
        assert s + {e.dayOrdinal} == s;
      } else {
        assert t.lastGoalDayOrdinal != e.dayOrdinal;
        LongestRunGrows(s, e.dayOrdinal, t.maxGoalStreak);
        if t.lastGoalDayOrdinal + 1 != e.dayOrdinal {
          assert e.dayOrdinal - 1 !in s;
        }
      }
    }
  }

  lemma GoalDaysGrow(events: seq<DayEvent>)
    requires events != []
    ensures var e := events[|events| - 1];
            GoalDays(events)
            == GoalDays(events[..|events| - 1]) + if e.goalMet && e.dayOrdinal != 0 then {e.dayOrdinal} else {}
  {
    var front, e := events[..|events| - 1], events[|events| - 1];
    forall d | d in GoalDays(events) ensures d in GoalDays(front) || (d == e.dayOrdinal && e.goalMet && e.dayOrdinal != 0) {
      var k :| 0 <= k < |events| && events[k].goalMet && events[k].dayOrdinal != 0 && events[k].dayOrdinal == d;
      assert k < |front| ==> front[k] == events[k];
    }
    forall d | d in GoalDays(front) ensures d in GoalDays(events) {
      var k :| 0 <= k < |front| && front[k].goalMet && front[k].dayOrdinal != 0 && front[k].dayOrdinal == d;
      assert events[k] == front[k];
    }
  }

  lemma GoalDayWitness(events: seq<DayEvent>, d: nat)
    requires d in GoalDays(events)
    ensures exists k :: 0 <= k < |events| && Counts(events[k]) && events[k].dayOrdinal == d
  {
    var k :| 0 <= k < |events| && events[k].goalMet && events[k].dayOrdinal != 0 && events[k].dayOrdinal == d;
    assert Counts(events[k]);
  }

  // Fed goal-met days in order, the tracker counts them and knows their longest run.
  lemma {:induction false} TrackerMatchesBatch(events: seq<DayEvent>)
    requires GoalOrdered(events)
    ensures Agrees(TrackAll(FRESH, events), GoalDays(events))
  {
    hide Agrees;
    if events == [] {
      FreshAgrees();
      assert GoalDays(events) == {};
    } else {
      var front, last := events[..|events| - 1], events[|events| - 1];
      assert GoalOrdered(front);
      TrackerMatchesBatch(front);
      GoalDaysGrow(events);
      if Counts(last) {
        forall d | d in GoalDays(front) ensures d <= last.dayOrdinal {
          GoalDayWitness(front, d);
          var k :| 0 <= k < |front| && Counts(front[k]) && front[k].dayOrdinal == d;
          assert front[k] == events[k];
        }
        TrackAgrees(TrackAll(FRESH, front), GoalDays(front), last);
      }
      assert GoalDays(front) + {} == GoalDays(front);
    }
  }

  // The day of a counted event becomes the tracker's last goal day.
  lemma CountedDayIsLast(t: Tracker, e: DayEvent)
    requires Counts(e)
    ensures Track(t, e).lastGoalDayOrdinal == e.dayOrdinal
  {
  }

  // The tracker is right at every moment if and only if the goal-met days come in order.
  lemma TrackerIsExact(events: seq<DayEvent>)
    ensures (forall n :: 0 <= n <= |events| ==> Agrees(TrackAll(FRESH, events[..n]), GoalDays(events[..n])))
       <==> GoalOrdered(events)
  {
    hide Agrees, TrackAll, Track;
    if GoalOrdered(events) {
      forall n | 0 <= n <= |events| ensures Agrees(TrackAll(FRESH, events[..n]), GoalDays(events[..n])) {
        TrackerMatchesBatch(events[..n]);
      }
    } else {
      var j, k :| 0 <= j < k < |events| && Counts(events[j]) && Counts(events[k])
                  && events[j].dayOrdinal > events[k].dayOrdinal;
      OutOfOrderDisagrees(events[..k + 1], j);
    }
  }

  // A goal-met day that comes after a later one leaves the tracker wrong.
  lemma OutOfOrderDisagrees(events: seq<DayEvent>, j: nat)
    requires j < |events| - 1 && Counts(events[j]) && Counts(events[|events| - 1])
    requires events[j].dayOrdinal > events[|events| - 1].dayOrdinal
    ensures !Agrees(TrackAll(FRESH, events), GoalDays(events))
  {
    hide Track;
    CountedDayIsLast(TrackAll(FRESH, events[..|events| - 1]), events[|events| - 1]);
    assert events[j].dayOrdinal in GoalDays(events);
  }

  lemma FreshAgrees()
    ensures Agrees(FRESH, {})
  {
  }

  // For example, the same day may be counted twice.
  lemma OrderMatters()
    ensures var events := [DayEvent(5, true), DayEvent(4, true), DayEvent(5, true)];
            TrackAll(FRESH, events).goalDaysCount == 3 && GoalDays(events) == {4, 5}
  {
    var e1, e2, e3 := DayEvent(5, true), DayEvent(4, true), DayEvent(5, true);
    assert [e1, e2, e3][..2] == [e1, e2] && [e1, e2][..1] == [e1] && [e1][..0] == [];
    assert TrackAll(FRESH, [e1]) == Tracker(1, 1, 1, 5);
    assert TrackAll(FRESH, [e1, e2]) == Tracker(2, 1, 1, 4);
    assert [e1, e2, e3][0] == e1 && [e1, e2, e3][1] == e2;
    assert 5 in GoalDays([e1, e2, e3]) && 4 in GoalDays([e1, e2, e3]);
  }

  lemma RunUnfolds(s: set<nat>, d: nat)
    ensures d > 0 && d - 1 !in s ==> RunEndingAt(s, d - 1) == 0
  {
  }

  // AchievementsStore::refreshGoalDerivedProgressFromStats: the fields taken from a batch computation,
  // where the current streak is 0 once it is no longer alive on the reference day.
  ghost predicate Refreshed(t: Tracker, s: set<nat>, referenceDay: nat) {
    && 0 !in s
    && t.goalDaysCount == |s| && IsLongestRun(s, t.maxGoalStreak) && IsCurrentStreak(s, referenceDay, t.currentGoalStreak)
    && (s == {} ==> t.lastGoalDayOrdinal == 0)
    && (s != {} ==> t.lastGoalDayOrdinal in s && forall d :: d in s ==> d <= t.lastGoalDayOrdinal)
  }

  // Tracking on from a refreshed state matches the batch again from the first goal day on or after the
  // reference day.
  lemma RefreshedThenTracked(t: Tracker, s: set<nat>, referenceDay: nat, e: DayEvent)
    requires Refreshed(t, s, referenceDay) && (forall d :: d in s ==> d <= referenceDay)
    requires e.goalMet && e.dayOrdinal != 0 && referenceDay <= e.dayOrdinal
    ensures e.dayOrdinal !in s ==> Agrees(Track(t, e), s + {e.dayOrdinal})
    ensures e.dayOrdinal in s ==> Track(t, e) == t && Agrees(t, s)
  {
    hide RunEndingAt;
    RunUnfolds(s, e.dayOrdinal);
    if s != {} {
      var latest :| latest in s && (forall d :: d in s ==> d <= latest)
             && t.currentGoalStreak
                == if latest == referenceDay || latest + 1 == referenceDay then RunEndingAt(s, latest) else 0;
      assert latest == t.lastGoalDayOrdinal;
    }
    if e.dayOrdinal !in s {
      LongestRunGrows(s, e.dayOrdinal, t.maxGoalStreak);
      if t.lastGoalDayOrdinal + 1 != e.dayOrdinal {
        assert e.dayOrdinal - 1 !in s;
      }
    }
  }
}
