// Which achievements a run of finished sessions and added bookmarks unlocks, from the start
// (src/AchievementsStore.cpp): each one is measured by its own figure.
module AchievementRuns {
  import opened StoreSteps
  import opened SessionCounts
  import opened Streaks
  import opened GoalStreaks
  import opened Achievements

  // ----- the figures of a run -----

  function KeyOf(r: Report): string {
    if r.snapshot.bookId != "" then r.snapshot.bookId else r.snapshot.path
  }

  // The reports that count, in order.
  function AcceptedOnes(reports: seq<Report>): seq<Report> {
    if reports == [] then []
    else
      var front, r := reports[..|reports| - 1], reports[|reports| - 1];
      AcceptedOnes(front) + if Acceptable(r, LastSerial(0, front)) then [r] else []
  }

  // The books read, and those finished, in some of these sessions.
  function BooksOf(sessions: seq<Report>): set<string> {
    set k | 0 <= k < |sessions| :: KeyOf(sessions[k])
  }

  function FinishedOf(sessions: seq<Report>): set<string> {
    set k | 0 <= k < |sessions| && sessions[k].snapshot.completedThisSession :: KeyOf(sessions[k])
  }

  function CountedOf(sessions: seq<Report>): nat {
    if sessions == [] then 0
    else CountedOf(sessions[..|sessions| - 1]) + if sessions[|sessions| - 1].snapshot.counted then 1 else 0
  }

  function TimeOf(sessions: seq<Report>): nat {
    if sessions == [] then 0
    else TimeOf(sessions[..|sessions| - 1]) + sessions[|sessions| - 1].snapshot.sessionMs
  }

  // n is the length of the longest of these sessions.
  ghost predicate IsLongest(sessions: seq<Report>, n: nat) {
    && (forall k :: 0 <= k < |sessions| ==> sessions[k].snapshot.sessionMs <= n)
    && (n == 0 || exists k :: 0 <= k < |sessions| && sessions[k].snapshot.sessionMs == n)
  }

  // A list without repetitions of the members of a set.
  ghost predicate Lists(list: seq<string>, s: set<string>) {
    && (forall j, k :: 0 <= j < k < |list| ==> list[j] != list[k])
    && (forall x :: x in list <==> x in s)
  }

  lemma {:induction false} ListSize(list: seq<string>, s: set<string>)
    requires Lists(list, s)
    ensures |list| == |s|
  {
    if list != [] {
      var front, last := list[..|list| - 1], list[|list| - 1];
      assert list == front + [last];
      assert last in list;
      forall x ensures x in front <==> x in s - {last} {
        if x in s - {last} { assert x in list; }
        if x in front { assert x in list; }
      }
      ListSize(front, s - {last});
    } else {
      assert s == {};
    }
  }

  lemma ListedGrows(list: seq<string>, s: set<string>, key: string, wanted: bool)
    requires Lists(list, s)
    ensures Lists(Listed(list, key, wanted), if wanted then s + {key} else s)
    ensures |Listed(list, key, wanted)| >= |list|
  {
  }

  // The fields of the store against the sessions that count.
  ghost predicate FiguresHold(sessions: seq<Report>, started: seq<string>, finished: seq<string>, counted: nat, longest: nat) {
    && Lists(started, BooksOf(sessions)) && Lists(finished, FinishedOf(sessions))
    && counted == CountedOf(sessions) && IsLongest(sessions, longest)
  }

  lemma BooksGrow(sessions: seq<Report>, r: Report)
    ensures BooksOf(sessions + [r]) == BooksOf(sessions) + {KeyOf(r)}
    ensures FinishedOf(sessions + [r])
         == if r.snapshot.completedThisSession then FinishedOf(sessions) + {KeyOf(r)} else FinishedOf(sessions)
  {
    var all := sessions + [r];
    assert all[|sessions|] == r && forall k :: 0 <= k < |sessions| ==> all[k] == sessions[k];
    forall x | x in BooksOf(sessions) + {KeyOf(r)} ensures x in BooksOf(all) {
      if x == KeyOf(r) { assert KeyOf(all[|sessions|]) == x; } else {
        var k :| 0 <= k < |sessions| && KeyOf(sessions[k]) == x;
        assert KeyOf(all[k]) == x;
      }
    }
    forall x | x in FinishedOf(sessions) ensures x in FinishedOf(all) {
      var k :| 0 <= k < |sessions| && sessions[k].snapshot.completedThisSession && KeyOf(sessions[k]) == x;
      assert KeyOf(all[k]) == x;
    }
    if r.snapshot.completedThisSession {
      assert all[|sessions|].snapshot.completedThisSession && KeyOf(all[|sessions|]) == KeyOf(r);
    }
  }

  lemma LongestGrows(sessions: seq<Report>, r: Report, n: nat)
    requires IsLongest(sessions, n)
    ensures IsLongest(sessions + [r], if n < r.snapshot.sessionMs then r.snapshot.sessionMs else n)
  {
    var all := sessions + [r];
    assert all[|sessions|] == r && forall k :: 0 <= k < |sessions| ==> all[k] == sessions[k];
    if n > 0 {
      var k :| 0 <= k < |sessions| && sessions[k].snapshot.sessionMs == n;
      assert all[k].snapshot.sessionMs == n;
    }
  }

  lemma FiguresStep(sessions: seq<Report>, r: Report, started: seq<string>, finished: seq<string>, counted: nat, longest: nat)
    requires FiguresHold(sessions, started, finished, counted, longest)
    ensures FiguresHold(sessions + [r], Listed(started, KeyOf(r), true), Listed(finished, KeyOf(r), r.snapshot.completedThisSession),
                        counted + if r.snapshot.counted then 1 else 0,
                        if longest < r.snapshot.sessionMs then r.snapshot.sessionMs else longest)
  {
    hide Lists, Listed, BooksOf, FinishedOf, IsLongest;
    BooksGrow(sessions, r);
    LongestGrows(sessions, r, longest);
    ListedGrows(started, BooksOf(sessions), KeyOf(r), true);
    ListedGrows(finished, FinishedOf(sessions), KeyOf(r), r.snapshot.completedThisSession);
    assert (sessions + [r])[..|sessions|] == sessions;
  }

  lemma NoFigures()
    ensures FiguresHold([], [], [], 0, 0) && AcceptedOnes([]) == []
  {
    assert BooksOf([]) == {} && FinishedOf([]) == {};
  }

  lemma {:induction false} TimeIsReported(reports: seq<Report>)
    ensures TimeOf(AcceptedOnes(reports)) == TimeReported(0, reports)
  {
    if reports != [] {
      var front, r := reports[..|reports| - 1], reports[|reports| - 1];
      TimeIsReported(front);
      assert (AcceptedOnes(front) + [r])[..|AcceptedOnes(front)|] == AcceptedOnes(front);
      assert AcceptedOnes(front) + [] == AcceptedOnes(front);
    }
  }

  lemma AcceptedGrow(reports: seq<Report>, i: nat)
    requires i < |reports|
    ensures AcceptedOnes(reports[..i + 1])
         == AcceptedOnes(reports[..i]) + if Acceptable(reports[i], LastSerial(0, reports[..i])) then [reports[i]] else []
    ensures LastSerial(0, reports[..i + 1])
         == if Acceptable(reports[i], LastSerial(0, reports[..i])) then reports[i].snapshot.serial else LastSerial(0, reports[..i])
    ensures TimeReported(0, reports[..i + 1])
         == TimeReported(0, reports[..i])
            + if Acceptable(reports[i], LastSerial(0, reports[..i])) then reports[i].snapshot.sessionMs else 0
  {
    assert reports[..i + 1][..i] == reports[..i];
  }

  // The day events of a run are those of the reports that count, one each.
  lemma {:induction false} EventsOfAccepted(reports: seq<Report>, k: nat)
    requires k < |AcceptedOnes(reports)|
    ensures |Events(0, reports, 0, 0)| == |AcceptedOnes(reports)|
    ensures Events(0, reports, 0, 0)[k] == EventOf(AcceptedOnes(reports)[k].moment, 0, 0)
  {
    hide EventOf, Acceptable;
    var front := reports[..|reports| - 1];
    if AcceptedOnes(front) != [] {
      EventsOfAccepted(front, if k < |AcceptedOnes(front)| then k else 0);
    } else {
      NoneAccepted(front);
    }
  }

  lemma {:induction false} NoneAccepted(reports: seq<Report>)
    ensures AcceptedOnes(reports) == [] <==> Events(0, reports, 0, 0) == []
  {
    if reports != [] { NoneAccepted(reports[..|reports| - 1]); }
  }

  // Sessions are of one book when they have one id, or, without an id, one path.
  lemma KeyExact(r: Report, s: Report)
    ensures r.snapshot.bookId != "" && r.snapshot.bookId == s.snapshot.bookId ==> KeyOf(r) == KeyOf(s) == r.snapshot.bookId
    ensures r.snapshot.bookId == "" && s.snapshot.bookId == "" ==> (KeyOf(r) == KeyOf(s) <==> r.snapshot.path == s.snapshot.path)
    ensures r.snapshot.bookId != "" && s.snapshot.bookId != "" && r.snapshot.bookId != s.snapshot.bookId ==> KeyOf(r) != KeyOf(s)
  {
  }

  // ----- what is unlocked -----

  // Once a session has counted, exactly the achievements whose figure has reached its target are unlocked.
  ghost predicate UnlockedByValue(store: AchievementsStore)
    requires store.Valid()
    reads store
  {
    forall k :: 0 <= k < |store.definitions| ==>
                  (store.states[store.definitions[k].id].unlocked
                   <==> store.ValueOf(store.definitions[k].metric) >= store.definitions[k].target)
  }

  ghost predicate AllLocked(store: AchievementsStore)
    requires store.Valid()
    reads store
  {
    forall k :: 0 <= k < |store.definitions| ==> !store.states[store.definitions[k].id].unlocked
  }

  lemma TrackGrows(t: Tracker, e: DayEvent)
    ensures Track(t, e).goalDaysCount >= t.goalDaysCount && Track(t, e).maxGoalStreak >= t.maxGoalStreak
  {
  }

  // One more report: figures and unlocks go on holding.
  method RecordOne(store: AchievementsStore, reports: seq<Report>, i: nat)
    requires store.Valid() && i < |reports| && store.resetDayOrdinal == store.resetDayBaselineMs == 0
    requires store.lastProcessedSessionSerial == LastSerial(0, reports[..i]) && store.totalBookmarksAdded == 0
    requires FiguresHold(AcceptedOnes(reports[..i]), store.startedBooks, store.finishedBooks, store.countedSessions,
                         store.longestSessionMs)
    requires store.accumulatedReadingMs == TimeReported(0, reports[..i])
    requires store.Goals() == TrackAll(FRESH, Events(0, reports[..i], 0, 0))
    requires if AcceptedOnes(reports[..i]) == [] then AllLocked(store) else UnlockedByValue(store)
    modifies store
    ensures store.Valid() && store.resetDayOrdinal == store.resetDayBaselineMs == 0
    ensures store.lastProcessedSessionSerial == LastSerial(0, reports[..i + 1]) && store.totalBookmarksAdded == 0
    ensures FiguresHold(AcceptedOnes(reports[..i + 1]), store.startedBooks, store.finishedBooks, store.countedSessions,
                        store.longestSessionMs)
    ensures store.accumulatedReadingMs == TimeReported(0, reports[..i + 1])
    ensures store.Goals() == TrackAll(FRESH, Events(0, reports[..i + 1], 0, 0))
    ensures if AcceptedOnes(reports[..i + 1]) == [] then AllLocked(store) else UnlockedByValue(store)
  {
    hide FiguresHold, Track, EventOf, Acceptable, Listed, DefinitionsOk, QueueOk, Permanent;
    ghost var sessions, r, events := AcceptedOnes(reports[..i]), reports[i], Events(0, reports[..i], 0, 0);
    assert reports[..i + 1][..i] == reports[..i];
    AcceptedGrow(reports, i);
    FiguresStep(sessions, r, store.startedBooks, store.finishedBooks, store.countedSessions, store.longestSessionMs);
    ListsGrow(store.startedBooks, KeyOf(r), true);
    ListsGrow(store.finishedBooks, KeyOf(r), r.snapshot.completedThisSession);
    TrackGrows(store.Goals(), EventOf(r.moment, 0, 0));
    TrackOneMore(FRESH, events, EventOf(r.moment, 0, 0));
    assert events + [] == events && sessions + [] == sessions;
    label Before:
    store.RecordSessionEnded(reports[i]);
    if Acceptable(r, LastSerial(0, reports[..i])) {
      forall k | 0 <= k < |store.definitions|
        ensures store.ValueOf(store.definitions[k].metric) >= old@Before(store.ValueOf(store.definitions[k].metric))
      {
      }
    }
  }

  lemma ListsGrow(list: seq<string>, key: string, wanted: bool)
    ensures |Listed(list, key, wanted)| >= |list|
  {
  }

  // An achievement is unlocked exactly if the figure it is named after has reached its target: distinct
  // books started or finished, counted sessions, time, the longest session, and, for goal-met days in any
  // order, the highest climb, or the number of days if they come in blocks.
  ghost predicate Earned(d: Definition, unlocked: bool, sessions: seq<Report>, events: seq<DayEvent>) {
    && (d.metric == BooksStarted ==> (unlocked <==> |BooksOf(sessions)| >= d.target))
    && (d.metric == BooksFinished ==> (unlocked <==> |FinishedOf(sessions)| >= d.target))
    && (d.metric == Sessions ==> (unlocked <==> CountedOf(sessions) >= d.target))
    && (d.metric == TotalReadingMs ==> (unlocked <==> TimeOf(sessions) >= d.target))
    && (d.metric == MaxSessionMs ==>
          (unlocked <==> exists j :: 0 <= j < |sessions| && sessions[j].snapshot.sessionMs >= d.target))
    && (d.metric == TotalBookmarksAdded ==> (unlocked <==> d.target == 0))
    && (d.metric == Metric.GoalDays && InBlocks(DayList(events)) ==> (unlocked <==> |Streaks.GoalDays(events)| >= d.target))
    && (d.metric == MaxGoalStreak ==> forall m: nat :: IsHighestClimb(DayList(events), m) ==> (unlocked <==> m >= d.target))
  }

  // When the goal-met days come in order, their number and their longest run decide.
  lemma EarnedInOrder(d: Definition, unlocked: bool, sessions: seq<Report>, events: seq<DayEvent>, longest: nat)
    requires Earned(d, unlocked, sessions, events) && GoalOrdered(events) && IsLongestRun(Streaks.GoalDays(events), longest)
    ensures d.metric == Metric.GoalDays ==> (unlocked <==> |Streaks.GoalDays(events)| >= d.target)
    ensures d.metric == MaxGoalStreak ==> (unlocked <==> longest >= d.target)
  {
    hide DayList, InBlocks, IsHighestClimb, IsLongestRun, BooksOf, FinishedOf, TrackAll;
    TrackerMatchesBatch(events);
    CountIsExact(events);
    StreakIsClimb(events);
    LongestRunUnique(Streaks.GoalDays(events), longest, TrackAll(FRESH, events).maxGoalStreak);
  }

  lemma HighestUnique(days: seq<nat>, m: nat, n: nat)
    requires IsHighestClimb(days, m) && IsHighestClimb(days, n)
    ensures m == n
  {
    if m > 0 {
      var j, k :| Climbs(days, j, k) && Height(days, j, k) == m;
      assert m <= n;
    }
    if n > 0 {
      var j, k :| Climbs(days, j, k) && Height(days, j, k) == n;
      assert n <= m;
    }
  }

  lemma FigureMeans(store: AchievementsStore, reports: seq<Report>, k: nat)
    requires store.Valid() && k < |store.definitions| && AcceptedOnes(reports) != [] && store.totalBookmarksAdded == 0
    requires FiguresHold(AcceptedOnes(reports), store.startedBooks, store.finishedBooks, store.countedSessions,
                         store.longestSessionMs)
    requires store.accumulatedReadingMs == TimeReported(0, reports)
    requires store.Goals() == TrackAll(FRESH, Events(0, reports, 0, 0))
    requires UnlockedByValue(store)
    ensures var d := store.definitions[k];
            Earned(d, store.states[d.id].unlocked, AcceptedOnes(reports), Events(0, reports, 0, 0))
  {
    hide Lists, BooksOf, FinishedOf, IsHighestClimb, InBlocks, DayList, TrackAll, Events, AcceptedOnes, TimeReported;
    hide Streaks.GoalDays, QueueOk;
    var sessions, events := AcceptedOnes(reports), Events(0, reports, 0, 0);
    ListSize(store.startedBooks, BooksOf(sessions));
    ListSize(store.finishedBooks, FinishedOf(sessions));
    TimeIsReported(reports);
    CountIsExact(events);
    StreakIsClimb(events);
    forall m: nat | IsHighestClimb(DayList(events), m) ensures m == store.maxGoalStreak {
      HighestUnique(DayList(events), m, store.maxGoalStreak);
    }
    LongestReaches(sessions, store.longestSessionMs, store.definitions[k].target);
  }

  lemma LongestReaches(sessions: seq<Report>, n: nat, target: nat)
    requires IsLongest(sessions, n) && sessions != []
    ensures n >= target <==> exists j :: 0 <= j < |sessions| && sessions[j].snapshot.sessionMs >= target
  {
    if n == 0 { assert sessions[0].snapshot.sessionMs >= 0; }
  }

  lemma NoReports()
    ensures AcceptedOnes([]) == [] && LastSerial(0, []) == 0 && TimeReported(0, []) == 0
    ensures TrackAll(FRESH, Events(0, [], 0, 0)) == FRESH
    ensures FiguresHold([], [], [], 0, 0)
  {
    NoFigures();
  }

  // From the start, after any reports of which one at least counts, each achievement has been unlocked
  // exactly if it has been earned.
  method RunFromStart(definitions: seq<Definition>, count: nat, reports: seq<Report>) returns (store: AchievementsStore)
    requires DefinitionsOk(definitions, count)
    ensures fresh(store) && store.Valid() && store.definitions == definitions
    ensures AcceptedOnes(reports) == [] ==> AllLocked(store)
    ensures AcceptedOnes(reports) != [] ==>
              forall k :: 0 <= k < |definitions| ==>
                Earned(definitions[k], store.states[definitions[k].id].unlocked, AcceptedOnes(reports), Events(0, reports, 0, 0))
  {
    hide FiguresHold, LastSerial, AcceptedOnes, Events, TimeReported, TrackAll, Earned, QueueOk;
    store := new AchievementsStore(definitions, count);
    NoReports();
    assert reports[..0] == [];
    for i := 0 to |reports|
      invariant fresh(store) && store.Valid() && store.definitions == definitions
      invariant store.resetDayOrdinal == store.resetDayBaselineMs == 0
      invariant store.lastProcessedSessionSerial == LastSerial(0, reports[..i]) && store.totalBookmarksAdded == 0
      invariant FiguresHold(AcceptedOnes(reports[..i]), store.startedBooks, store.finishedBooks, store.countedSessions,
                            store.longestSessionMs)
      invariant store.accumulatedReadingMs == TimeReported(0, reports[..i])
      invariant store.Goals() == TrackAll(FRESH, Events(0, reports[..i], 0, 0))
      invariant if AcceptedOnes(reports[..i]) == [] then AllLocked(store) else UnlockedByValue(store)
    {
      RecordOne(store, reports, i);
    }
    assert reports[..|reports|] == reports;
    if AcceptedOnes(reports) != [] {
      forall k | 0 <= k < |definitions|
        ensures Earned(definitions[k], store.states[definitions[k].id].unlocked, AcceptedOnes(reports), Events(0, reports, 0, 0))
      {
        FigureMeans(store, reports, k);
      }
    }
  }
}
