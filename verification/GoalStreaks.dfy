// What each figure of the incremental streak tracker (AchievementsStore::recordSessionEnded,
// src/AchievementsStore.cpp) still says when goal-met days arrive out of order.
module GoalStreaks {
  import opened Streaks

  // The goal-met days in the order in which they arrive.
  function DayList(events: seq<DayEvent>): (days: seq<nat>)
    ensures forall k :: 0 <= k < |days| ==> days[k] > 0
  {
    if events == [] then []
    else
      var last := events[|events| - 1];
      DayList(events[..|events| - 1]) + if Counts(last) then [last.dayOrdinal] else []
  }

  lemma DaySetAppend(days: seq<nat>, d: nat)
    ensures DaySet(days + [d]) == DaySet(days) + {d}
  {
    DaySetGrows(days + [d], |days|);
    assert (days + [d])[..|days| + 1] == days + [d] && (days + [d])[..|days|] == days;
  }

  lemma {:induction false} DayListIsGoalDays(events: seq<DayEvent>)
    ensures DaySet(DayList(events)) == GoalDays(events)
  {
    if events == [] {
      assert DaySet([]) == {} && GoalDays([]) == {};
    } else {
      hide DaySet, GoalDays;
      var front, last := events[..|events| - 1], events[|events| - 1];
      DayListIsGoalDays(front);
      GoalDaysGrow(events);
      if Counts(last) {
        DaySetAppend(DayList(front), last.dayOrdinal);
      } else {
        assert DayList(front) + [] == DayList(front);
      }
    }
  }

  // ----- the number of days -----

  // The reports of one day are not interrupted by another day.
  ghost predicate InBlocks(days: seq<nat>) {
    forall i, k, j :: 0 <= i < k < j < |days| && days[i] == days[j] ==> days[k] == days[i]
  }

  lemma BlocksGrow(days: seq<nat>, d: nat)
    ensures days != [] && d == days[|days| - 1] ==> (InBlocks(days + [d]) <==> InBlocks(days))
    ensures d !in days ==> (InBlocks(days + [d]) <==> InBlocks(days))
    ensures days != [] && d != days[|days| - 1] && d in days ==> !InBlocks(days + [d])
  {
    var all := days + [d];
    if InBlocks(all) {
      forall i, k, j | 0 <= i < k < j < |days| && days[i] == days[j] ensures days[k] == days[i] {
        assert all[i] == all[j] && all[k] == days[k];
      }
    }
    if days != [] && d != days[|days| - 1] && d in days {
      var i :| 0 <= i < |days| && days[i] == d;
      assert all[i] == all[|days|] && all[|days| - 1] != all[i];
    }
    if InBlocks(days) && days != [] && d == days[|days| - 1] {
      forall i, k, j | 0 <= i < k < j < |all| && all[i] == all[j] ensures all[k] == all[i] {
        if j == |days| && k < |days| - 1 { assert days[i] == days[|days| - 1]; }
      }
    }
  }

  // The figures for the number of days: never too small, and right exactly for blocks.
  ghost predicate CountHolds(t: Tracker, days: seq<nat>, s: set<nat>) {
    && t.lastGoalDayOrdinal == (if days == [] then 0 else days[|days| - 1])
    && t.goalDaysCount >= |s|
    && (t.goalDaysCount == |s| <==> InBlocks(days))
  }

  lemma CountStep(t: Tracker, days: seq<nat>, s: set<nat>, e: DayEvent)
    requires Counts(e) && CountHolds(t, days, s) && forall d :: d in s <==> d in days
    ensures CountHolds(Track(t, e), days + [e.dayOrdinal], s + {e.dayOrdinal})
  {
    hide InBlocks;
    BlocksGrow(days, e.dayOrdinal);
    OneMoreDay(s, e.dayOrdinal);
  }

  // The tracker never counts too few days, and exactly the goal-met ones if and only if the reports of
  // each day come in one block; the order of the blocks does not matter.
  lemma {:induction false} CountIsExact(events: seq<DayEvent>)
    ensures CountHolds(TrackAll(FRESH, events), DayList(events), GoalDays(events))
  {
    if events == [] {
      assert GoalDays([]) == {};
    } else {
      hide CountHolds, GoalDays, DaySet, Track;
      var front, last := events[..|events| - 1], events[|events| - 1];
      CountIsExact(front);
      GoalDaysGrow(events);
      if Counts(last) {
        DayListIsGoalDays(front);
        InDaySet(DayList(front));
        CountStep(TrackAll(FRESH, front), DayList(front), GoalDays(front), last);
      } else {
        NotTracked(TrackAll(FRESH, front), last);
        assert DayList(front) + [] == DayList(front);
        assert GoalDays(front) + {} == GoalDays(front);
      }
    }
  }

  lemma NotTracked(t: Tracker, e: DayEvent)
    requires !Counts(e)
    ensures Track(t, e) == t
  {
  }

  lemma InDaySet(days: seq<nat>)
    ensures forall d :: d in DaySet(days) <==> d in days
  {
  }

  lemma OneMoreDay(s: set<nat>, d: nat)
    ensures |s + {d}| == if d in s then |s| else |s| + 1
  {
    if d in s { assert s + {d} == s; }
  }

  // ----- the longest streak -----

  predicate StepsUp(days: seq<nat>, i: nat)
    requires i + 1 < |days|
  {
    days[i + 1] == days[i] || days[i + 1] == days[i] + 1
  }

  // From report j to report k every report is of the day of the one before or of the next day.
  ghost predicate Climbs(days: seq<nat>, j: nat, k: nat) {
    j <= k < |days| && forall i {:trigger StepsUp(days, i)} :: j <= i < k ==> StepsUp(days, i)
  }

  function Height(days: seq<nat>, j: nat, k: nat): int
    requires j < |days| && k < |days|
  {
    days[k] as int - days[j] as int + 1
  }

  ghost predicate IsHighestClimb(days: seq<nat>, m: nat) {
    && (forall j, k :: Climbs(days, j, k) ==> Height(days, j, k) <= m)
    && (m == 0 || exists j, k :: Climbs(days, j, k) && Height(days, j, k) == m)
  }

  // The highest climb that ends with report k.
  ghost predicate IsClimbTo(days: seq<nat>, k: nat, m: nat) {
    && (forall j :: Climbs(days, j, k) ==> Height(days, j, k) <= m)
    && (exists j :: Climbs(days, j, k) && Height(days, j, k) == m)
  }

  lemma ClimbsBefore(days: seq<nat>, d: nat, j: nat, k: nat)
    requires k < |days|
    ensures Climbs(days + [d], j, k) <==> Climbs(days, j, k)
  {
    var all := days + [d];
    if j <= k {
      forall i | j <= i < k ensures StepsUp(all, i) <==> StepsUp(days, i) {
      }
    }
  }

  lemma ClimbsOn(days: seq<nat>, d: nat, j: nat)
    requires days != [] && j < |days|
    ensures Climbs(days + [d], j, |days|)
       <==> Climbs(days, j, |days| - 1) && (d == days[|days| - 1] || d == days[|days| - 1] + 1)
  {
    var all, last := days + [d], |days| - 1;
    ClimbsBefore(days, d, j, last);
    if Climbs(all, j, |days|) { assert StepsUp(all, last); }
    if Climbs(all, j, last) && StepsUp(all, last) {
      assert Climbs(all, j, |days|);
    }
  }

  // What the tracker's streaks are.
  ghost predicate StreaksHold(t: Tracker, days: seq<nat>) {
    && t.lastGoalDayOrdinal == (if days == [] then 0 else days[|days| - 1])
    && (days != [] ==> IsClimbTo(days, |days| - 1, t.currentGoalStreak))
    && IsHighestClimb(days, t.maxGoalStreak)
  }

  lemma HeightsStay(days: seq<nat>, d: nat)
    ensures forall j, k :: 0 <= j < |days| && 0 <= k < |days| ==> Height(days + [d], j, k) == Height(days, j, k)
    ensures forall j :: 0 <= j < |days| ==> Height(days + [d], j, |days|) == d as int - days[j] as int + 1
  {
  }

  lemma ClimbToNew(days: seq<nat>, d: nat, m: nat) returns (n: nat)
    requires days != [] ==> IsClimbTo(days, |days| - 1, m)
    ensures n == if days == [] then 1
                 else if d == days[|days| - 1] then m else if d == days[|days| - 1] + 1 then m + 1 else 1
    ensures IsClimbTo(days + [d], |days|, n)
  {
    var all, last := days + [d], |days| - 1;
    n := if days == [] then 1 else if d == days[last] then m else if d == days[last] + 1 then m + 1 else 1;
    assert Climbs(all, |days|, |days|) && Height(all, |days|, |days|) == 1;
    forall j: nat | Climbs(all, j, |days|) ensures Height(all, j, |days|) <= n {
      if j < |days| {
        ClimbsOn(days, d, j);
        assert Height(days, j, last) <= m;
      } else {
        LowestClimb(days, m);
      }
    }
    if days != [] && (d == days[last] || d == days[last] + 1) {
      var j :| Climbs(days, j, last) && Height(days, j, last) == m;
      ClimbsOn(days, d, j);
      assert Climbs(all, j, |days|) && Height(all, j, |days|) == n;
    }
  }

  lemma LowestClimb(days: seq<nat>, m: nat)
    requires days != [] ==> IsClimbTo(days, |days| - 1, m)
    ensures days != [] ==> m >= 1
  {
    if days != [] {
      assert Climbs(days, |days| - 1, |days| - 1) && Height(days, |days| - 1, |days| - 1) == 1;
    }
  }

  lemma HighestGrows(days: seq<nat>, d: nat, m: nat, n: nat)
    requires IsHighestClimb(days, m) && IsClimbTo(days + [d], |days|, n)
    ensures IsHighestClimb(days + [d], if m < n then n else m)
  {
    var all := days + [d];
    forall j: nat, k: nat | Climbs(all, j, k) ensures Height(all, j, k) <= if m < n then n else m {
      if k < |days| { ClimbsBefore(days, d, j, k); }
    }
    if m < n {
      var j :| Climbs(all, j, |days|) && Height(all, j, |days|) == n;
    } else if m > 0 {
      var j, k :| Climbs(days, j, k) && Height(days, j, k) == m;
      ClimbsBefore(days, d, j, k);
      assert Climbs(all, j, k) && Height(all, j, k) == m;
    }
  }

  lemma StreakStep(t: Tracker, days: seq<nat>, e: DayEvent)
    requires Counts(e) && StreaksHold(t, days) && forall k :: 0 <= k < |days| ==> days[k] > 0
    ensures StreaksHold(Track(t, e), days + [e.dayOrdinal])
  {
    hide IsClimbTo, IsHighestClimb;
    var n := ClimbToNew(days, e.dayOrdinal, t.currentGoalStreak);
    HighestGrows(days, e.dayOrdinal, t.maxGoalStreak, n);
    if days != [] && e.dayOrdinal == days[|days| - 1] { LastIsNoHigher(t, days); }
  }

  lemma LastIsNoHigher(t: Tracker, days: seq<nat>)
    requires days != [] && StreaksHold(t, days)
    ensures t.currentGoalStreak <= t.maxGoalStreak
  {
    var j :| Climbs(days, j, |days| - 1) && Height(days, j, |days| - 1) == t.currentGoalStreak;
  }

  lemma NoClimbs()
    ensures StreaksHold(FRESH, [])
  {
  }

  // The longest streak the tracker holds is the highest climb: one day up at a time, report by report.
  lemma {:induction false} StreakIsClimb(events: seq<DayEvent>)
    ensures StreaksHold(TrackAll(FRESH, events), DayList(events))
  {
    hide StreaksHold, Track;
    if events == [] {
      NoClimbs();
    } else {
      var front, last := events[..|events| - 1], events[|events| - 1];
      StreakIsClimb(front);
      if Counts(last) {
        StreakStep(TrackAll(FRESH, front), DayList(front), last);
      } else {
        NotTracked(TrackAll(FRESH, front), last);
        assert DayList(front) + [] == DayList(front);
      }
    }
  }

  // All days of a climb have been reported.
  lemma {:induction false} ClimbIsRun(days: seq<nat>, j: nat, k: nat)
    requires Climbs(days, j, k) && forall i :: 0 <= i < |days| ==> days[i] > 0
    ensures days[j] <= days[k] && RunEndingAt(DaySet(days), days[k]) >= Height(days, j, k)
    decreases k
  {
    hide DaySet;
    InDaySet(days);
    assert days[k] in days;
    if j < k {
      assert StepsUp(days, k - 1);
      ClimbIsRun(days, j, k - 1);
    }
  }

  // So it is never too long, and it is right if and only if the days of some longest run have come one
  // after the other.
  lemma StreakIsExact(events: seq<DayEvent>, longest: nat)
    requires IsLongestRun(GoalDays(events), longest)
    ensures var t, days := TrackAll(FRESH, events), DayList(events);
            && t.maxGoalStreak <= longest
            && (t.maxGoalStreak == longest <==> longest == 0 || exists j, k :: Climbs(days, j, k) && Height(days, j, k) == longest)
  {
    hide TrackAll, DayList, RunEndingAt, Height, StepsUp, DaySet, GoalDays;
    var t, days := TrackAll(FRESH, events), DayList(events);
    StreakIsClimb(events);
    DayListIsGoalDays(events);
    InDaySet(days);
    forall j: nat, k: nat | Climbs(days, j, k) ensures Height(days, j, k) <= longest {
      ClimbIsRun(days, j, k);
      assert days[k] in GoalDays(events);
    }
  }
}
