// Achievements from finished reading sessions (src/AchievementsStore.cpp): a session counts unless its
// serial is the one processed last, an unlock is for ever and announced once, and the goal streak is
// tracked session by session.
module Achievements {
  import opened StoreSteps
  import opened SessionCounts
  import opened ReadingStats
  import opened Streaks
  import opened Clock

  datatype Metric = BooksStarted | BooksFinished | Sessions | TotalReadingMs | GoalDays | MaxGoalStreak
                  | TotalBookmarksAdded | MaxSessionMs

  datatype Definition = Definition(id: nat, metric: Metric, target: nat)

  datatype State = State(unlocked: bool, unlockedAt: nat)

  const LOCKED := State(false, 0)

  predicate NoneUnlocked(states: seq<State>) {
    forall k :: 0 <= k < |states| ==> !states[k].unlocked
  }

  function LockedStates(count: nat): (states: seq<State>)
    ensures |states| == count && NoneUnlocked(states)
  {
    seq(count, _ => LOCKED)
  }

  // What is still to be shown is the end of what has been announced.
  ghost predicate IsTail(pending: seq<nat>, announced: seq<nat>) {
    |pending| <= |announced| && pending == announced[|announced| - |pending|..]
  }

  lemma NothingQueued(states: seq<State>)
    ensures QueueOk([], states) && IsTail([], [])
  {
  }

  // Today's reading since the achievements were reset.
  function EffectiveToday(m: Moment, resetDayOrdinal: nat, resetDayBaselineMs: nat): nat {
    if LocalDay(m.timestamp, m.offsetQ) != 0 && LocalDay(m.timestamp, m.offsetQ) == resetDayOrdinal then
      if m.todayReadingMs > resetDayBaselineMs then m.todayReadingMs - resetDayBaselineMs else 0
    else m.todayReadingMs
  }

  function EventOf(m: Moment, resetDayOrdinal: nat, resetDayBaselineMs: nat): DayEvent {
    DayEvent(LocalDay(m.timestamp, m.offsetQ), EffectiveToday(m, resetDayOrdinal, resetDayBaselineMs) >= m.goalMs)
  }

  // The goal is met by what has been read today, and on the day of a reset by what was read after it.
  lemma EventMeans(m: Moment, resetDayOrdinal: nat, resetDayBaselineMs: nat)
    ensures var e, today := EventOf(m, resetDayOrdinal, resetDayBaselineMs), LocalDay(m.timestamp, m.offsetQ);
            && e.dayOrdinal == today
            && (today == 0 || today != resetDayOrdinal ==> (e.goalMet <==> m.goalMs <= m.todayReadingMs))
            && (today != 0 && today == resetDayOrdinal ==>
                  (e.goalMet <==> m.goalMs == 0 || m.goalMs + resetDayBaselineMs <= m.todayReadingMs))
  {
    hide LocalDay;
  }

  ghost predicate DefinitionsOk(definitions: seq<Definition>, count: nat) {
    && (forall k :: 0 <= k < |definitions| ==> definitions[k].id < count)
    && (forall j, k :: 0 <= j < k < |definitions| ==> definitions[j].id != definitions[k].id)
  }

  // Each id stands at most once in the queue, and only unlocked ones do.
  ghost predicate QueueOk(queue: seq<nat>, states: seq<State>) {
    && (forall k :: 0 <= k < |queue| ==> queue[k] < |states| && states[queue[k]].unlocked)
    && (forall j, k :: 0 <= j < k < |queue| ==> queue[j] != queue[k])
  }

  // Nothing is locked again, and what was unlocked keeps its date.
  ghost predicate Permanent(before: seq<State>, after: seq<State>) {
    |after| == |before| && forall k :: 0 <= k < |before| && before[k].unlocked ==> after[k] == before[k]
  }

  lemma PermanentReflexive(states: seq<State>)
    ensures Permanent(states, states)
  {
  }

  class AchievementsStore {
    const definitions: seq<Definition>
    var states: seq<State>
    var startedBooks: seq<string>
    var finishedBooks: seq<string>
    var pendingUnlocks: seq<nat>
    var accumulatedReadingMs: nat
    var countedSessions: nat
    var totalBookmarksAdded: nat
    var longestSessionMs: nat
    var goalDaysCount: nat
    var currentGoalStreak: nat
    var maxGoalStreak: nat
    var lastGoalDayOrdinal: nat
    var resetDayOrdinal: nat
    var resetDayBaselineMs: nat
    var lastProcessedSessionSerial: nat
    var dirty: bool
    // Every id ever put into the queue, in order.
    ghost var announced: seq<nat>

    ghost predicate Valid()
      reads this
    {
      && DefinitionsOk(definitions, |states|)
      && QueueOk(announced, states)
      && IsTail(pendingUnlocks, announced)
    }

    function Goals(): Tracker
      reads this
    {
      Tracker(goalDaysCount, currentGoalStreak, maxGoalStreak, lastGoalDayOrdinal)
    }

    function ValueOf(metric: Metric): nat
      reads this
    {
      match metric
      case BooksStarted => |startedBooks|
      case BooksFinished => |finishedBooks|
      case Sessions => countedSessions
      case TotalReadingMs => accumulatedReadingMs
      case GoalDays => goalDaysCount
      case MaxGoalStreak => maxGoalStreak
      case TotalBookmarksAdded => totalBookmarksAdded
      case MaxSessionMs => longestSessionMs
    }

    constructor (definitions: seq<Definition>, count: nat)
      requires DefinitionsOk(definitions, count)
      ensures Valid() && this.definitions == definitions && Goals() == FRESH && pendingUnlocks == [] && lastProcessedSessionSerial == 0
      ensures startedBooks == finishedBooks == [] && |states| == count && NoneUnlocked(states)
      ensures accumulatedReadingMs == countedSessions == totalBookmarksAdded == longestSessionMs == 0
      ensures resetDayOrdinal == resetDayBaselineMs == 0
    {
      hide LockedStates, NoneUnlocked, DefinitionsOk, QueueOk, IsTail;
      NothingQueued(LockedStates(count));
      this.definitions := definitions;
      states := LockedStates(count);
      startedBooks, finishedBooks, pendingUnlocks, announced := [], [], [], [];
      accumulatedReadingMs, countedSessions, totalBookmarksAdded, longestSessionMs := 0, 0, 0, 0;
      goalDaysCount, currentGoalStreak, maxGoalStreak, lastGoalDayOrdinal := 0, 0, 0, 0;
      resetDayOrdinal, resetDayBaselineMs, lastProcessedSessionSerial, dirty := 0, 0, 0, false;
    }

    // Only the first unlock of an id does anything.
    method Unlock(id: nat, timestamp: nat, announce: bool)
      requires Valid() && id < |states|
      modifies `states, `pendingUnlocks, `announced, `dirty
      ensures Valid()
      ensures states == if old(states)[id].unlocked then old(states) else old(states)[id := State(true, timestamp)]
      ensures var fresh_ := if !old(states)[id].unlocked && announce then [id] else [];
              announced == old(announced) + fresh_ && pendingUnlocks == old(pendingUnlocks) + fresh_
      ensures dirty == (old(dirty) || !old(states)[id].unlocked)
    {
      if states[id].unlocked { return; }
      assert id !in announced;
      states := states[id := State(true, timestamp)];
      if announce {
        pendingUnlocks := pendingUnlocks + [id];
        announced := announced + [id];
      }
      dirty := true;
    }

    // Afterwards an achievement is unlocked exactly if it was or its target is reached.
    method EvaluateProgress(timestamp: nat, announce: bool)
      requires Valid()
      modifies `states, `pendingUnlocks, `announced, `dirty
      ensures Valid() && Permanent(old(states), states)
      ensures forall k :: 0 <= k < |definitions| ==>
                var d := definitions[k];
                states[d.id].unlocked == (old(states)[d.id].unlocked || ValueOf(d.metric) >= d.target)
      ensures |announced| >= |old(announced)| && announced[..|old(announced)|] == old(announced)
      ensures !announce ==> pendingUnlocks == old(pendingUnlocks) && announced == old(announced)
      ensures forall id :: id in announced && id !in old(announced) ==> id < |old(states)| && !old(states)[id].unlocked
      ensures old(dirty) ==> dirty
    {
      hide QueueOk;
      for i := 0 to |definitions|
        invariant Valid() && Permanent(old(states), states)
        invariant forall k :: 0 <= k < i ==>
                    var d := definitions[k];
                    states[d.id].unlocked == (old(states)[d.id].unlocked || ValueOf(d.metric) >= d.target)
        invariant forall k :: i <= k < |definitions| ==> states[definitions[k].id] == old(states)[definitions[k].id]
        invariant |announced| >= |old(announced)| && announced[..|old(announced)|] == old(announced)
        invariant !announce ==> pendingUnlocks == old(pendingUnlocks) && announced == old(announced)
        invariant forall id :: id in announced && id !in old(announced) ==> id < |old(states)| && !old(states)[id].unlocked
        invariant old(dirty) ==> dirty
      {
        var definition := definitions[i];
        if ValueOf(definition.metric) >= definition.target {
          Unlock(definition.id, timestamp, announce);
        }
      }
    }

    // The goal streak of recordSessionEnded.
    method TrackGoal(m: Moment)
      modifies `goalDaysCount, `currentGoalStreak, `maxGoalStreak, `lastGoalDayOrdinal
      ensures Goals() == Track(old(Goals()), EventOf(m, resetDayOrdinal, resetDayBaselineMs))
    {
      var dayOrdinal := if IsClockValid(m.timestamp) then LocalDay(m.timestamp, m.offsetQ) else 0;
      var effectiveToday := m.todayReadingMs;
      if dayOrdinal != 0 && dayOrdinal == resetDayOrdinal {
        effectiveToday := if effectiveToday > resetDayBaselineMs then effectiveToday - resetDayBaselineMs else 0;
      }
      if dayOrdinal != 0 && effectiveToday >= m.goalMs && lastGoalDayOrdinal != dayOrdinal {
        goalDaysCount := goalDaysCount + 1;
        if lastGoalDayOrdinal != 0 && lastGoalDayOrdinal + 1 == dayOrdinal {
          currentGoalStreak := currentGoalStreak + 1;
        } else {
          currentGoalStreak := 1;
        }
        maxGoalStreak := if maxGoalStreak < currentGoalStreak then currentGoalStreak else maxGoalStreak;
        lastGoalDayOrdinal := dayOrdinal;
      }
    }

    // The plain figures of a session.
    method AddSession(s: Snapshot)
      modifies `startedBooks, `finishedBooks, `accumulatedReadingMs, `longestSessionMs, `countedSessions, `lastProcessedSessionSerial
      ensures var key := if s.bookId != "" then s.bookId else s.path;
              startedBooks == Listed(old(startedBooks), key, true)
              && finishedBooks == Listed(old(finishedBooks), key, s.completedThisSession)
      ensures accumulatedReadingMs == old(accumulatedReadingMs) + s.sessionMs
      ensures countedSessions == old(countedSessions) + if s.counted then 1 else 0
      ensures longestSessionMs == if old(longestSessionMs) < s.sessionMs then s.sessionMs else old(longestSessionMs)
      ensures lastProcessedSessionSerial == s.serial
    {
      lastProcessedSessionSerial := s.serial;
      var bookKey := if s.bookId != "" then s.bookId else s.path;
      if bookKey !in startedBooks { startedBooks := startedBooks + [bookKey]; }
      accumulatedReadingMs := accumulatedReadingMs + s.sessionMs;
      longestSessionMs := if longestSessionMs < s.sessionMs then s.sessionMs else longestSessionMs;
      if s.counted { countedSessions := countedSessions + 1; }
      if s.completedThisSession && bookKey !in finishedBooks { finishedBooks := finishedBooks + [bookKey]; }
    }

    method RecordSessionEnded(r: Report)
      requires Valid()
      modifies this
      ensures Valid() && Permanent(old(states), states)
      ensures resetDayOrdinal == old(resetDayOrdinal) && resetDayBaselineMs == old(resetDayBaselineMs)
      ensures totalBookmarksAdded == old(totalBookmarksAdded)
      ensures !Acceptable(r, old(lastProcessedSessionSerial)) ==>
                && Goals() == old(Goals()) && accumulatedReadingMs == old(accumulatedReadingMs) && states == old(states)
                && countedSessions == old(countedSessions) && pendingUnlocks == old(pendingUnlocks)
                && lastProcessedSessionSerial == old(lastProcessedSessionSerial)
                && startedBooks == old(startedBooks) && finishedBooks == old(finishedBooks)
                && longestSessionMs == old(longestSessionMs)
      ensures Acceptable(r, old(lastProcessedSessionSerial)) ==>
                var s := r.snapshot;
                var key := if s.bookId != "" then s.bookId else s.path;
                && Goals() == Track(old(Goals()), EventOf(r.moment, resetDayOrdinal, resetDayBaselineMs))
                && accumulatedReadingMs == old(accumulatedReadingMs) + s.sessionMs
                && countedSessions == old(countedSessions) + (if s.counted then 1 else 0)
                && longestSessionMs == (if old(longestSessionMs) < s.sessionMs then s.sessionMs else old(longestSessionMs))
                && lastProcessedSessionSerial == s.serial
                && startedBooks == Listed(old(startedBooks), key, true)
                && finishedBooks == Listed(old(finishedBooks), key, s.completedThisSession)
                && (forall k :: 0 <= k < |definitions| ==>
                      states[definitions[k].id].unlocked
                      == (old(states)[definitions[k].id].unlocked || ValueOf(definitions[k].metric) >= definitions[k].target))
    {
      hide DefinitionsOk, QueueOk, Track, EventOf, Listed, Permanent;
      PermanentReflexive(states);
      var s := r.snapshot;
      if !r.moment.achievementsEnabled || !s.valid || s.serial == 0 || s.serial == lastProcessedSessionSerial
         || (s.bookId == "" && s.path == "") {
        return;
      }
      AcceptSession(r);
    }

    // The part of recordSessionEnded after its guard.
    method AcceptSession(r: Report)
      requires Valid()
      modifies this
      ensures Valid() && Permanent(old(states), states)
      ensures resetDayOrdinal == old(resetDayOrdinal) && resetDayBaselineMs == old(resetDayBaselineMs)
      ensures totalBookmarksAdded == old(totalBookmarksAdded)
      ensures var s := r.snapshot;
              var key := if s.bookId != "" then s.bookId else s.path;
              && Goals() == Track(old(Goals()), EventOf(r.moment, resetDayOrdinal, resetDayBaselineMs))
              && accumulatedReadingMs == old(accumulatedReadingMs) + s.sessionMs
              && countedSessions == old(countedSessions) + (if s.counted then 1 else 0)
              && longestSessionMs == (if old(longestSessionMs) < s.sessionMs then s.sessionMs else old(longestSessionMs))
              && lastProcessedSessionSerial == s.serial
              && startedBooks == Listed(old(startedBooks), key, true)
              && finishedBooks == Listed(old(finishedBooks), key, s.completedThisSession)
      ensures forall k :: 0 <= k < |definitions| ==>
                states[definitions[k].id].unlocked
                == (old(states)[definitions[k].id].unlocked || ValueOf(definitions[k].metric) >= definitions[k].target)
    {
      hide DefinitionsOk, QueueOk, Track, EventOf, Listed, Permanent;
      AddSession(r.snapshot);
      TrackGoal(r.moment);
      dirty := true;
      EvaluateProgress(r.moment.timestamp, r.moment.popups);
    }

    // recordBookmarkAdded.
    method RecordBookmarkAdded(m: Moment)
      requires Valid()
      modifies `totalBookmarksAdded, `states, `pendingUnlocks, `announced, `dirty
      ensures Valid() && Permanent(old(states), states)
      ensures !m.achievementsEnabled ==> totalBookmarksAdded == old(totalBookmarksAdded) && states == old(states)
      ensures m.achievementsEnabled ==>
                && totalBookmarksAdded == old(totalBookmarksAdded) + 1
                && forall k :: 0 <= k < |definitions| ==>
                     states[definitions[k].id].unlocked
                     == (old(states)[definitions[k].id].unlocked || ValueOf(definitions[k].metric) >= definitions[k].target)
    {
      hide DefinitionsOk, QueueOk, Permanent;
      PermanentReflexive(states);
      if !m.achievementsEnabled { return; }
      totalBookmarksAdded := totalBookmarksAdded + 1;
      dirty := true;
      EvaluateProgress(m.timestamp, m.popups);
    }

    // The next popup, oldest first.
    method PopNextPopup() returns (shown: bool, id: nat)
      requires Valid()
      modifies `pendingUnlocks
      ensures Valid()
      ensures shown <==> old(pendingUnlocks) != []
      ensures pendingUnlocks == if shown then old(pendingUnlocks)[1..] else []
      ensures shown ==> id == old(pendingUnlocks)[0]
    {
      if pendingUnlocks == [] { return false, 0; }
      id := pendingUnlocks[0];
      pendingUnlocks := pendingUnlocks[1..];
      shown := true;
    }
  }

  // A list of distinct keys, with one more where it is wanted and missing.
  function Listed(keys: seq<string>, key: string, wanted: bool): seq<string> {
    if wanted && key !in keys then keys + [key] else keys
  }

  // ----- runs -----

  function Events(serial: nat, reports: seq<Report>, resetDay: nat, baseline: nat): seq<DayEvent> {
    if reports == [] then []
    else
      var front, r := reports[..|reports| - 1], reports[|reports| - 1];
      Events(serial, front, resetDay, baseline)
      + if Acceptable(r, LastSerial(serial, front)) then [EventOf(r.moment, resetDay, baseline)] else []
  }

  lemma TrackOneMore(t: Tracker, events: seq<DayEvent>, e: DayEvent)
    ensures TrackAll(t, events + [e]) == Track(TrackAll(t, events), e)
  {
    assert (events + [e])[..|events|] == events;
  }

  // Over any reports, repeated ones included: the goal fields are the tracker's, the time added is that of
  // the reports accepted, and no unlock is lost, re-dated or announced twice. Fed goal-met days in order
  // from a fresh start, the fields therefore count them and know their longest run; and if every session
  // is accepted at its first report and never again, its time is added exactly once.
  method RunReports(store: AchievementsStore, reports: seq<Report>)
    requires store.Valid()
    modifies store
    ensures store.Valid() && Permanent(old(store.states), store.states)
    ensures var events := Events(old(store.lastProcessedSessionSerial), reports, store.resetDayOrdinal, store.resetDayBaselineMs);
            && store.Goals() == TrackAll(old(store.Goals()), events)
            && (old(store.Goals()) == FRESH && GoalOrdered(events) ==> Agrees(store.Goals(), Streaks.GoalDays(events)))
    ensures store.accumulatedReadingMs
         == old(store.accumulatedReadingMs) + TimeReported(old(store.lastProcessedSessionSerial), reports)
    ensures old(store.lastProcessedSessionSerial) == 0 && EachSessionOnce(reports) ==>
              store.accumulatedReadingMs == old(store.accumulatedReadingMs) + TimeOfSessions(reports)
  {
    hide DefinitionsOk, QueueOk, Track, EventOf, Agrees, GoalOrdered, Streaks.GoalDays, Acceptable, EachSessionOnce, TimeOfSessions;
    ghost var serial, resetDay, baseline := store.lastProcessedSessionSerial, store.resetDayOrdinal, store.resetDayBaselineMs;
    for i := 0 to |reports|
      invariant store.Valid() && Permanent(old(store.states), store.states)
      invariant store.resetDayOrdinal == resetDay && store.resetDayBaselineMs == baseline
      invariant store.lastProcessedSessionSerial == LastSerial(serial, reports[..i])
      invariant store.Goals() == TrackAll(old(store.Goals()), Events(serial, reports[..i], resetDay, baseline))
      invariant store.accumulatedReadingMs == old(store.accumulatedReadingMs) + TimeReported(serial, reports[..i])
    {
      assert reports[..i + 1][..i] == reports[..i];
      ghost var events := Events(serial, reports[..i], resetDay, baseline);
      TrackOneMore(old(store.Goals()), events, EventOf(reports[i].moment, resetDay, baseline));
      assert events + [] == events;
      store.RecordSessionEnded(reports[i]);
    }
    assert reports[..|reports|] == reports;
    ghost var events := Events(serial, reports, resetDay, baseline);
    if old(store.Goals()) == FRESH && GoalOrdered(events) {
      TrackerMatchesBatch(events);
    }
    if EachSessionOnce(reports) {
      SessionsAddOnce(reports);
    }
  }

  // The serials of the statistics store start over when it gives its memory back or takes over a file,
  // but the serial processed last is kept. So if exactly one session has been processed, the first
  // session after such a restart, however long, changes nothing.
  method RestartedSessionIsDropped(stats: ReadingStatsStore, store: AchievementsStore, begin: Env, end: Env,
                                   path: string, moment: Moment)
    requires stats.Valid() && !stats.activeSession.active && stats.sessionSerialCounter == 0
    requires path != "" && !begin.lib.ignored(path)
    requires store.Valid() && store.lastProcessedSessionSerial == 1
    modifies stats, stats.storage, store
    ensures stats.lastSessionSnapshot.valid && stats.lastSessionSnapshot.serial == 1
    ensures stats.lastSessionSnapshot.sessionMs
         == SessionMs(Session(true, 0, begin.millis, CreditedMs(end, Session(true, 0, begin.millis, 0, 0, false)), 0, false))
    ensures store.accumulatedReadingMs == old(store.accumulatedReadingMs)
    ensures store.countedSessions == old(store.countedSessions) && store.Goals() == old(store.Goals())
    ensures store.startedBooks == old(store.startedBooks) && store.finishedBooks == old(store.finishedBooks)
  {
    hide DefinitionsOk, QueueOk, Track, EventOf;
    BeginAndEnd(stats, begin, end, path);
    store.RecordSessionEnded(Report(stats.lastSessionSnapshot, moment));
  }

  method BeginAndEnd(stats: ReadingStatsStore, begin: Env, end: Env, path: string)
    requires stats.Valid() && !stats.activeSession.active && stats.sessionSerialCounter == 0
    requires path != "" && !begin.lib.ignored(path)
    modifies stats, stats.storage
    ensures stats.lastSessionSnapshot.valid && stats.lastSessionSnapshot.serial == 1
    ensures stats.lastSessionSnapshot.sessionMs
         == SessionMs(Session(true, 0, begin.millis, CreditedMs(end, Session(true, 0, begin.millis, 0, 0, false)), 0, false))
  {
    stats.BeginSession(begin, path, "", "", "", 0, "", 0);
    stats.EndSession(end);
  }
}
