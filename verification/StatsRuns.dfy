// Runs of the reading-statistics store: a session's accounting over a wrapping tick counter, and
// what any sequence of operations keeps.
module StatsRuns {
  import opened Wrappers
  import opened ReadingDays
  import opened Books
  import opened Ledger
  import opened Clock
  import opened Streaks
  import opened Summary
  import opened SaveProtocol
  import opened StatsDocument
  import opened StoreSteps
  import opened ReadingStats

  // ----- the accounting of a session -----

  // What happens while a book is open, with the unwrapped time in milliseconds at which it happens.
  datatype Beat = Activity(at: nat, env: Env) | Heartbeat(at: nat, env: Env) | Resume(at: nat, env: Env)

  function CountedGap(last: nat, at: nat): nat
    requires last <= at
  {
    if at - last < MAX_READING_GAP_MS then at - last else MAX_READING_GAP_MS
  }

  // A gap is closed by an activity, or by a heartbeat a minute or more after the last interaction.
  predicate ClosesGap(last: nat, b: Beat) {
    b.Activity? || (b.Heartbeat? && b.at >= last + SESSION_HEARTBEAT_MS)
  }

  function NextInteraction(last: nat, b: Beat): nat {
    if ClosesGap(last, b) || b.Resume? then b.at else last
  }

  // Time goes forward, no gap reaches 2^32 ms, and the tick counter shows the time modulo 2^32.
  predicate WellTimed(last: nat, beats: seq<Beat>)
    decreases |beats|
  {
    beats == []
    || (last <= beats[0].at < last + TICK_RANGE
        && beats[0].env.millis == beats[0].at % TICK_RANGE
        && WellTimed(NextInteraction(last, beats[0]), beats[1..]))
  }

  // The sum of the closed gaps, none counted for more than half an hour.
  function Accounted(last: nat, beats: seq<Beat>): nat
    requires WellTimed(last, beats)
    decreases |beats|
  {
    if beats == [] then 0
    else (if ClosesGap(last, beats[0]) then CountedGap(last, beats[0].at) else 0)
         + Accounted(NextInteraction(last, beats[0]), beats[1..])
  }

  // The beats of a real session: times never go back, the last is within 2^32 ms of the start, and the tick
  // counter shows them modulo 2^32.
  ghost predicate RealTimes(last: nat, beats: seq<Beat>) {
    && (forall k :: 0 <= k < |beats| ==> last <= beats[k].at < last + 0x1_0000_0000
                                         && beats[k].env.millis == beats[k].at % 0x1_0000_0000)
    && (forall j, k :: 0 <= j < k < |beats| ==> beats[j].at <= beats[k].at)
  }

  lemma {:induction false} RealIsWellTimed(last: nat, beats: seq<Beat>)
    requires RealTimes(last, beats)
    ensures WellTimed(last, beats)
    decreases |beats|
  {
    if beats != [] {
      var rest := beats[1..];
      forall k | 0 <= k < |rest|
        ensures beats[0].at <= rest[k].at < last + 0x1_0000_0000 && rest[k].env.millis == rest[k].at % 0x1_0000_0000
      {
        assert rest[k] == beats[k + 1];
      }
      RealIsWellTimed(NextInteraction(last, beats[0]), rest);
    }
  }

  // Steady reading, without a pause of more than half an hour, is accounted for in full.
  lemma {:induction false} SteadyReading(last: nat, beats: seq<Beat>)
    requires WellTimed(last, beats) && beats != []
    requires forall k :: 0 <= k < |beats| ==> beats[k].Activity?
    requires beats[0].at <= last + 1800000
    requires forall j, k :: 0 <= j < k < |beats| && k == j + 1 ==> beats[k].at <= beats[j].at + 1800000
    ensures Accounted(last, beats) == beats[|beats| - 1].at - last
    decreases |beats|
  {
    if |beats| > 1 {
      var rest := beats[1..];
      assert forall k :: 0 <= k < |rest| ==> rest[k] == beats[k + 1];
      SteadyReading(beats[0].at, rest);
    } else {
      NoneAccounted(beats[0].at);
    }
  }

  lemma NoneAccounted(last: nat)
    ensures Accounted(last, []) == 0
  {
  }

  // A longer pause counts as half an hour; time before a resume and heartbeats within a minute count for nothing.
  lemma FirstBeat(last: nat, b: Beat, rest: seq<Beat>)
    requires WellTimed(last, [b] + rest)
    ensures b.Activity? && b.at - last > 1800000 ==> Accounted(last, [b] + rest) == 1800000 + Accounted(b.at, rest)
    ensures b.Resume? ==> Accounted(last, [b] + rest) == Accounted(b.at, rest)
    ensures b.Heartbeat? && b.at - last < 60000 ==> Accounted(last, [b] + rest) == Accounted(last, rest)
    ensures b.Heartbeat? && b.at - last >= 60000 ==>
              Accounted(last, [b] + rest) == Accounted(last, [Activity(b.at, b.env)] + rest)
  {
    assert ([b] + rest)[1..] == rest && ([Activity(b.at, b.env)] + rest)[1..] == rest;
  }

  // One book has gained ms, the others are as they were.
  ghost predicate OnlyGained(before: seq<Book>, after: seq<Book>, index: nat, ms: nat) {
    && |after| == |before| && index < |before|
    && after[index].totalReadingMs == before[index].totalReadingMs + ms
    && after[index].bookId == before[index].bookId && after[index].path == before[index].path
    && (forall k :: 0 <= k < |before| && k != index ==> after[k] == before[k])
    && TotalTime(after) == TotalTime(before) + ms
  }

  lemma ReadOnlyGains(env: Env, last: nat, books: seq<Book>, s: Session, days: seq<DayStats>)
    requires s.bookIndex < |books|
    ensures OnlyGained(books, BooksRead(env, last, books, s), s.bookIndex, CreditedMs(env, s))
  {
    hide CreditedMs, ReferenceFor, LocalDay, Upsert, DaysRead;
    ReadMeans(env, last, books, s, days, 0, s.bookIndex);
  }

  lemma GainsAdd(a: seq<Book>, b: seq<Book>, c: seq<Book>, index: nat, x: nat, y: nat)
    requires OnlyGained(a, b, index, x) && OnlyGained(b, c, index, y)
    ensures OnlyGained(a, c, index, x + y)
  {
  }

  lemma NoGain(books: seq<Book>, index: nat)
    requires index < |books|
    ensures OnlyGained(books, books, index, 0)
  {
  }

  // One beat of a session.
  method DoBeat(store: ReadingStatsStore, last: nat, b: Beat)
    requires store.Valid() && store.activeSession.active && store.activeSession.lastInteractionMs == last % TICK_RANGE
    requires last <= b.at < last + TICK_RANGE && b.env.millis == b.at % TICK_RANGE
    modifies store, store.storage
    ensures store.Valid()
    ensures var s, t, ms := old(store.activeSession), store.activeSession, if ClosesGap(last, b) then CountedGap(last, b.at) else 0;
            && t == s.(accumulatedMs := s.accumulatedMs + ms, lastInteractionMs := NextInteraction(last, b) % TICK_RANGE)
            && OnlyGained(old(store.books), store.books, s.bookIndex, ms)
    ensures store.legacyReadingDays == old(store.legacyReadingDays)
  {
    hide LedgerOk, SummaryHolds, BooksRead, DaysRead, OnlyGained, Elapsed, SaveOutcome;
    ElapsedIsExact(b.at, last);
    ReadOnlyGains(b.env, store.appState.lastKnownValidTimestamp, store.books, store.activeSession, store.readingDays);
    NoGain(store.books, store.activeSession.bookIndex);
    match b {
      case Activity(_, env) => store.NoteActivity(env);
      case Heartbeat(_, env) => store.TickActiveSession(env);
      case Resume(_, env) => store.ResumeSession(env);
    }
  }

  // Over any session, however often the tick counter wraps, exactly the counted gaps are accumulated,
  // and the book of the session gains exactly as much; every other book is untouched.
  method RunSession(store: ReadingStatsStore, start: nat, beats: seq<Beat>)
    requires store.Valid() && store.activeSession.active && store.activeSession.lastInteractionMs == start % TICK_RANGE
    requires WellTimed(start, beats)
    modifies store, store.storage
    ensures store.Valid() && store.activeSession.active && store.activeSession.bookIndex == old(store.activeSession).bookIndex
    ensures store.activeSession.accumulatedMs == old(store.activeSession).accumulatedMs + Accounted(start, beats)
    ensures OnlyGained(old(store.books), store.books, store.activeSession.bookIndex, Accounted(start, beats))
  {
    hide OnlyGained, CountedGap, ClosesGap, NextInteraction;
    var last: nat, i := start, 0;
    ghost var gained: nat := 0;
    NoGain(store.books, store.activeSession.bookIndex);
    assert beats[0..] == beats;
    while i < |beats|
      invariant 0 <= i <= |beats| && WellTimed(last, beats[i..])
      invariant store.Valid() && store.activeSession.active && store.activeSession.lastInteractionMs == last % TICK_RANGE
      invariant store.activeSession.bookIndex == old(store.activeSession).bookIndex
      invariant gained + Accounted(last, beats[i..]) == Accounted(start, beats)
      invariant store.activeSession.accumulatedMs == old(store.activeSession).accumulatedMs + gained
      invariant OnlyGained(old(store.books), store.books, store.activeSession.bookIndex, gained)
    {
      assert beats[i..][1..] == beats[i + 1..];
      ghost var before, ms := store.books, if ClosesGap(last, beats[i]) then CountedGap(last, beats[i].at) else 0;
      DoBeat(store, last, beats[i]);
      GainsAdd(old(store.books), before, store.books, store.activeSession.bookIndex, gained, ms);
      gained := gained + ms;
      last := NextInteraction(last, beats[i]);
      i := i + 1;
    }
  }

  // ----- any sequence of operations -----

  datatype SessionOp =
    | Begin(path: string, title: string, author: string, cover: string, progress: nat, chapter: string, chapterProgress: nat)
    | Note
    | Tick
    | Continue
    | Progress(percent: nat, completed: bool, chapter: string, chapterPercent: nat)
    | End

  datatype BookOp =
    | Adjust(path: string, dayOrdinal: nat, deltaMs: int)
    | Describe(path: string, title: string, author: string, cover: string)
    | Relocate(oldKey: string, newPath: string, title: string, author: string, cover: string, bookId: string)
    | Remove(path: string)
    | Query(days: nat)

  datatype FileOp =
    | Release
    | Reload
    | Load
    | Import(path: string, source: File<StatsDoc>)
    | Reset
    | Export(path: string)
    | ExportOnOwnFile(path: string)

  datatype Op = OnSession(s: SessionOp) | OnBooks(b: BookOp) | OnFile(f: FileOp)

  datatype Call = Call(env: Env, op: Op)

  datatype StoreState = StoreState(books: seq<Book>, legacy: seq<DayStats>, readingDays: seq<DayStats>, session: Session,
                                   loadFailed: bool, dirty: bool, synced: bool, disk: Disk<StatsDoc>, lastKnown: nat)

  ghost function StateOf(store: ReadingStatsStore): StoreState
    reads store, store.storage, store.appState
  {
    StoreState(store.books, store.legacyReadingDays, store.readingDays, store.activeSession,
               store.loadFailed, store.dirty, store.Synced(), store.storage.disk, store.appState.lastKnownValidTimestamp)
  }

  // The ledger, the session and the latch, in one state.
  ghost predicate StateOk(s: StoreState) {
    && LedgerOk(s.readingDays, s.legacy, s.books)
    && (s.session.active ==> s.session.bookIndex < |s.books|)
    && (s.loadFailed ==> !s.dirty)
  }

  // A call that ends a latch: a wipe, or a file that could be read.
  predicate Lifts(c: Call, s: StoreState) {
    c.op.OnFile?
    && match c.op.f
       case Reset => true
       case Import(path, source) => path != "" && source.Whole? && c.env.parseOk
       case Load => FoundDisk(s.disk, c.env.faults).main.Whole? && c.env.parseOk
       case Reload => s.disk.main.Whole? && c.env.parseOk
       case _ => false
  }

  // A call that makes the store differ from its file although it is clean: it adopts a file, which it
  // normalises, or gives its memory back.
  predicate Detaches(c: Call) {
    c.op.OnFile? && (c.op.f.Load? || c.op.f.Reload? || c.op.f.Release?)
  }

  // A call that writes on the store's own file from outside.
  predicate Overwrites(c: Call) {
    c.op.OnFile? && c.op.f.ExportOnOwnFile?
  }

  predicate Loading(c: Call) {
    c.op.OnFile? && (c.op.f.Load? || c.op.f.Reload?)
  }

  // Nothing is left to recover behind a latched store.
  ghost predicate Settled(s: StoreState) {
    s.loadFailed ==> s.disk.main != Absent || s.disk.temp == Absent
  }

  // ----- what a query answers -----

  datatype Answers = Answers(finished: nat, total: nat, today: nat, recent: nat, current: nat, longest: nat)

  function DayOf(s: StoreState, env: Env): nat {
    ReferenceDay(env, s.lastKnown, s.books, s.readingDays)
  }

  // Every figure is that of the state, at the time of the query.
  ghost predicate Answered(s: StoreState, env: Env, days: nat, a: Answers) {
    && a.finished == Finished(s.books) && a.total == TotalTime(s.books)
    && a.today == DayTotal(s.readingDays, DayOf(s, env))
    && a.recent == (if days == 0 then 0
                    else RecentTime(s.readingDays, DayOf(s, env), if days <= 7 then 7 else if days <= 30 then 30 else days))
    && IsCurrentStreak(GoalMetDays(s.readingDays, env.goalMs), DayOf(s, env), a.current)
    && IsLongestRun(GoalMetDays(s.readingDays, env.goalMs), a.longest)
  }

  predicate IsQuery(c: Call) {
    c.op.OnBooks? && c.op.b.Query?
  }

  ghost predicate AnswerOk(s: StoreState, c: Call, a: Option<Answers>) {
    IsQuery(c) ==> a.Some? && Answered(s, c.env, c.op.b.days, a.value)
  }

  // The figures go together: the current streak is no longer than the longest, and today is among the
  // last days.
  lemma AnswersCohere(s: StoreState, env: Env, days: nat, a: Answers)
    requires Answered(s, env, days, a)
    ensures a.current <= a.longest
    ensures days > 0 ==> a.today <= a.recent
    ensures a.recent <= SpanTotal(s.readingDays, 0, DayOf(s, env))
  {
    hide GoalMetDays, RunEndingAt, DayTotal, TotalTime, Finished;
    if days > 0 {
      var n := if days <= 7 then 7 else if days <= 30 then 30 else days;
      SpanShrinks(s.readingDays, 0, WindowStart(DayOf(s, env), n), DayOf(s, env));
    }
  }

  lemma {:induction false} SpanShrinks(days: seq<DayStats>, lo: nat, later: nat, hi: nat)
    requires lo <= later
    ensures SpanTotal(days, later, hi) <= SpanTotal(days, lo, hi)
  {
    hide DayTotal;
    if later <= hi && hi > 0 { SpanShrinks(days, lo, later, hi - 1); }
  }

  lemma AnswersUnique(s: StoreState, env: Env, days: nat, a: Answers, b: Answers)
    requires Answered(s, env, days, a) && Answered(s, env, days, b)
    ensures a == b
  {
    hide GoalMetDays, RunEndingAt, DayTotal, TotalTime, Finished, RecentTime, IsCurrentStreak, IsLongestRun;
    var met := GoalMetDays(s.readingDays, env.goalMs);
    CurrentStreakUnique(met, DayOf(s, env), a.current, b.current);
    LongestRunUnique(met, a.longest, b.longest);
  }

  // What one call may do to the latch and the file.
  ghost predicate Stepped(s: StoreState, c: Call, t: StoreState) {
    && (s.loadFailed && Settled(s) && !Lifts(c, s) ==>
          t.loadFailed && Settled(t) && (!Overwrites(c) ==> t.disk == s.disk))
    && (Lifts(c, s) ==> !t.loadFailed)
    && (t.loadFailed && !s.loadFailed ==> Loading(c) && Settled(t) && t.disk.main != Absent)
    && (NoFaults(c.env.faults) && s.synced && !Detaches(c) && !Overwrites(c) ==> t.synced)
    && (IsQuery(c) ==> t == s)
  }

  // The states of a run, one more than there are calls.
  ghost predicate RunOk(states: seq<StoreState>, calls: seq<Call>) {
    && |states| == |calls| + 1
    && forall k {:trigger calls[k]} :: 0 <= k < |calls| ==> Stepped(states[k], calls[k], states[k + 1])
  }

  lemma RunGrows(states: seq<StoreState>, calls: seq<Call>, n: nat, next: StoreState)
    requires n < |calls| && RunOk(states, calls[..n]) && Stepped(states[n], calls[n], next)
    ensures RunOk(states + [next], calls[..n + 1])
  {
    hide Stepped;
    var all := states + [next];
    forall k | 0 <= k < n + 1 ensures Stepped(all[k], calls[..n + 1][k], all[k + 1]) {
      if k < n { assert calls[..n][k] == calls[k]; }
    }
  }

  // No call from i up to j, j excluded, ends a latch or writes on the store's own file from outside.
  ghost predicate LeftAlone(states: seq<StoreState>, calls: seq<Call>, i: nat, j: nat)
    requires j <= |calls| <= |states|
  {
    forall k :: i <= k < j ==> !Lifts(calls[k], states[k]) && !Overwrites(calls[k])
  }

  // The call at i is a load that fails and latches the store.
  ghost predicate Latches(states: seq<StoreState>, calls: seq<Call>, i: nat)
    requires i < |calls| && |states| == |calls| + 1
  {
    && Loading(calls[i]) && !states[i].loadFailed
    && states[i + 1].loadFailed && states[i + 1].disk.main != Absent
  }

  // No call after i and before j ends a latch.
  ghost predicate StaysLatched(states: seq<StoreState>, calls: seq<Call>, i: nat, j: nat)
    requires j <= |calls| <= |states|
  {
    forall k :: i < k < j ==> !Lifts(calls[k], states[k])
  }

  method Execute(store: ReadingStatsStore, other: Storage<StatsDoc>, c: Call) returns (answer: Option<Answers>)
    requires store.Valid() && other != store.storage
    modifies store, store.storage, store.appState, other
    ensures store.Valid() && Stepped(old(StateOf(store)), c, StateOf(store))
    ensures AnswerOk(old(StateOf(store)), c, answer)
  {
    hide Stepped, Answered;
    answer := None;
    match c.op {
      case OnSession(_) => InSession(store, c);
      case OnBooks(_) => answer := Edit(store, c);
      case OnFile(_) => Replace(store, other, c);
    }
  }

  method InSession(store: ReadingStatsStore, c: Call)
    requires store.Valid() && c.op.OnSession?
    modifies store, store.storage
    ensures store.Valid() && Stepped(old(StateOf(store)), c, StateOf(store))
  {
    hide LedgerOk, SummaryHolds, BooksRead, DaysRead, SaveOutcome, Denotes, Opened, BooksProgressed, CanSave, Due;
    hide BooksClosed, DaysClosed, LogClosed, ContentsClosed, SnapshotOf, LogEnded, BooksEnded, SaveTrace, SaveReturns, Document;
    match c.op.s {
      case Begin(path, title, author, cover, progress, chapter, chapterProgress) =>
        store.BeginSession(c.env, path, title, author, cover, progress, chapter, chapterProgress);
      case Note => store.NoteActivity(c.env);
      case Tick => store.TickActiveSession(c.env);
      case Continue => store.ResumeSession(c.env);
      case Progress(percent, completed, chapter, chapterPercent) =>
        store.UpdateProgress(c.env, percent, completed, chapter, chapterPercent);
      case End => store.EndSession(c.env);
    }
  }

  method Edit(store: ReadingStatsStore, c: Call) returns (answer: Option<Answers>)
    requires store.Valid() && c.op.OnBooks?
    modifies store, store.storage
    ensures store.Valid() && Stepped(old(StateOf(store)), c, StateOf(store))
    ensures AnswerOk(old(StateOf(store)), c, answer)
  {
    answer := None;
    hide LedgerOk, SummaryHolds, SaveOutcome, FirstByPath, KnownBy, Moved, Described, SessionFollows, TimesWithout, CanSave, Due;
    hide AdjustedTimes, Covers, Adjusted, SaveTrace, SaveReturns, SaveOk, ReferenceDay, Document, Elapsed, Answered;
    match c.op.b {
      case Adjust(path, dayOrdinal, deltaMs) => var ok := store.AdjustBookReadingTime(c.env, path, dayOrdinal, deltaMs);
      case Describe(path, title, author, cover) => var changed := store.UpdateBookMetadata(c.env, path, title, author, cover);
      case Relocate(oldKey, newPath, title, author, cover, bookId) =>
        var ok := store.UpdateBookPath(c.env, oldKey, newPath, title, author, cover, bookId);
      case Remove(path) => var ok := store.RemoveBook(c.env, path);
      case Query(days) =>
        var a := Ask(store, c.env, days);
        answer := Some(a);
    }
  }

  method Ask(store: ReadingStatsStore, env: Env, days: nat) returns (a: Answers)
    requires store.Valid()
    modifies store`summaryCache
    ensures store.Valid() && Answered(StateOf(store), env, days, a)
  {
    hide LedgerOk, SummaryHolds, ReferenceDay, RecentTime, GoalMetDays, IsCurrentStreak, IsLongestRun, DayTotal, Document;
    var finished := store.GetBooksFinishedCount(env);
    var total := store.GetTotalReadingMs(env);
    var today := store.GetTodayReadingMs(env);
    var recent := store.GetRecentReadingMs(env, days);
    var current := store.GetCurrentStreakDays(env);
    var longest := store.GetMaxStreakDays(env);
    return Answers(finished, total, today, recent, current, longest);
  }

  method Replace(store: ReadingStatsStore, other: Storage<StatsDoc>, c: Call)
    requires store.Valid() && other != store.storage
    requires c.op.OnFile?
    modifies store, store.storage, store.appState, other
    ensures store.Valid() && Stepped(old(StateOf(store)), c, StateOf(store))
  {
    hide LedgerOk, SummaryHolds, SaveOutcome, SaveReturns, SaveTrace, Document, StoredBooks, LegacyOf, Trimmed, NeedsRewrite, Remembered;
    hide ContentsClosed;
    SavesSettle(store.storage.disk, store.Contents(), c.env.faults);
    match c.op.f {
      case Release => var ok := store.ReleaseMemoryForNetwork(c.env);
      case Reload => var ok := store.ReloadAfterNetwork(c.env);
      case Load => var ok := store.LoadFromFile(c.env);
      case Import(path, source) => var ok := store.ImportFromFile(c.env, path, source);
      case Reset => store.Reset(c.env);
      case Export(path) => var ok := store.ExportToFile(c.env, path, other);
      case ExportOnOwnFile(path) => var ok := store.ExportToFile(c.env, path, store.storage);
    }
  }

  // A save that ends leaves no temp file behind.
  lemma SavesSettle(d: Disk<StatsDoc>, doc: StatsDoc, f: Faults)
    ensures Last(SaveTrace(d, doc, f)).temp == Absent
  {
  }

  // Every state of a run keeps the ledger equation for every day, the session index and the latch, and
  // every query is answered with the figures of the state it meets.
  method RunOperations(store: ReadingStatsStore, other: Storage<StatsDoc>, calls: seq<Call>)
    returns (ghost states: seq<StoreState>, answers: seq<Option<Answers>>)
    requires store.Valid() && other != store.storage
    modifies store, store.storage, store.appState, other
    ensures store.Valid() && |states| == |calls| + 1
    ensures states[0] == old(StateOf(store)) && states[|calls|] == StateOf(store)
    ensures forall i :: 0 <= i <= |calls| ==> StateOk(states[i])
    ensures forall i, d: nat :: 0 <= i <= |calls| ==>
              DayTotal(states[i].readingDays, d) == DayTotal(states[i].legacy, d) + BookTotal(states[i].books, d)
    ensures RunOk(states, calls) && AllAnswered(states, calls, answers)
  {
    hide Stepped, LedgerOk, SummaryHolds, Document, DayTotal, BookTotal, AnswerOk;
    states := [StateOf(store)];
    answers := [];
    for i := 0 to |calls|
      invariant store.Valid() && |states| == i + 1 && |answers| == i
      invariant forall k {:trigger calls[k]} :: 0 <= k < i ==> AnswerOk(states[k], calls[k], answers[k])
      invariant states[0] == old(StateOf(store)) && states[i] == StateOf(store)
      invariant forall k :: 0 <= k <= i ==> StateOk(states[k])
      invariant RunOk(states, calls[..i])
    {
      var answer := Execute(store, other, calls[i]);
      answers := answers + [answer];
      RunGrows(states, calls, i, StateOf(store));
      states := states + [StateOf(store)];
    }
    assert calls[..|calls|] == calls;
    forall i, d: nat | 0 <= i <= |calls|
      ensures DayTotal(states[i].readingDays, d) == DayTotal(states[i].legacy, d) + BookTotal(states[i].books, d)
    {
      assert StateOk(states[i]);
      LedgerAt(states[i].readingDays, states[i].legacy, states[i].books, d);
    }
  }

  ghost predicate AllAnswered(states: seq<StoreState>, calls: seq<Call>, answers: seq<Option<Answers>>) {
    && |answers| == |calls| <= |states|
    && forall k {:trigger calls[k]} :: 0 <= k < |calls| ==> AnswerOk(states[k], calls[k], answers[k])
  }

  // Queries made one after the other at the same time, with nothing but queries between them, are answered alike.
  lemma {:induction false} QueriesAgree(states: seq<StoreState>, calls: seq<Call>, answers: seq<Option<Answers>>, i: nat, j: nat)
    requires RunOk(states, calls) && AllAnswered(states, calls, answers)
    requires i <= j < |calls| && (forall k :: i <= k <= j ==> IsQuery(calls[k])) && calls[i] == calls[j]
    ensures answers[i] == answers[j]
  {
    hide Answered, Lifts, Settled;
    QueriesKeepState(states, calls, i, j);
    assert AnswerOk(states[i], calls[i], answers[i]) && AnswerOk(states[j], calls[j], answers[j]);
    AnswersUnique(states[i], calls[i].env, calls[i].op.b.days, answers[i].value, answers[j].value);
  }

  lemma {:induction false} QueriesKeepState(states: seq<StoreState>, calls: seq<Call>, i: nat, j: nat)
    requires RunOk(states, calls) && i <= j < |calls| && forall k :: i <= k < j ==> IsQuery(calls[k])
    ensures states[j] == states[i]
    decreases j
  {
    hide Lifts, Settled;
    if i < j {
      QueriesKeepState(states, calls, i, j - 1);
      assert Stepped(states[j - 1], calls[j - 1], states[j]);
    }
  }

  // The runs of a new store: every state that can be reached.
  method RunFromStart(storage: Storage<StatsDoc>, appState: AppState, other: Storage<StatsDoc>, calls: seq<Call>)
    returns (store: ReadingStatsStore, ghost states: seq<StoreState>, answers: seq<Option<Answers>>)
    requires other != storage
    modifies storage, appState, other
    ensures fresh(store) && store.storage == storage && store.Valid() && |states| == |calls| + 1
    ensures !states[0].loadFailed && states[0].books == [] && states[0].disk == old(storage.disk)
    ensures states[|calls|] == StateOf(store)
    ensures forall i :: 0 <= i <= |calls| ==> StateOk(states[i])
    ensures forall i, d: nat :: 0 <= i <= |calls| ==>
              DayTotal(states[i].readingDays, d) == DayTotal(states[i].legacy, d) + BookTotal(states[i].books, d)
    ensures RunOk(states, calls) && AllAnswered(states, calls, answers)
  {
    hide Stepped, LedgerOk, SummaryHolds, Document, DayTotal, BookTotal, StateOk, AllAnswered;
    store := new ReadingStatsStore(storage, appState);
    states, answers := RunOperations(store, other, calls);
  }

  // From the state in which a load has failed until a load or an import succeeds or the store is wiped,
  // the file does not change, whatever is done (apart from exporting on that very file).
  lemma {:induction false} LatchedUntilLifted(states: seq<StoreState>, calls: seq<Call>, i: nat, j: nat)
    requires RunOk(states, calls) && i <= j <= |calls|
    requires states[i].loadFailed && Settled(states[i])
    requires LeftAlone(states, calls, i, j)
    ensures states[j].loadFailed && states[j].disk == states[i].disk && Settled(states[j])
    decreases j
  {
    hide Lifts;
    if i < j {
      LatchedUntilLifted(states, calls, i, j - 1);
      assert Stepped(states[j - 1], calls[j - 1], states[j]);
    }
  }

  // In a run from the start a store is latched by a failed load only, and then nothing waits to be recovered.
  lemma {:induction false} LatchedBySomeLoad(states: seq<StoreState>, calls: seq<Call>, j: nat)
    requires RunOk(states, calls) && j <= |calls| && !states[0].loadFailed
    requires states[j].loadFailed
    ensures Settled(states[j])
    ensures exists i: nat :: i < j && Latches(states, calls, i) && StaysLatched(states, calls, i, j)
    decreases j
  {
    hide Lifts, Settled;
    assert Stepped(states[j - 1], calls[j - 1], states[j]);
    if states[j - 1].loadFailed {
      LatchedBySomeLoad(states, calls, j - 1);
      var i: nat :| i < j - 1 && Latches(states, calls, i) && StaysLatched(states, calls, i, j - 1);
      assert StaysLatched(states, calls, i, j);
    } else {
      assert Latches(states, calls, j - 1) && StaysLatched(states, calls, j - 1, j);
    }
  }

  // Saves without faults keep a clean store and its file alike, until a file is adopted or memory given back.
  lemma {:induction false} CleanMeansSaved(states: seq<StoreState>, calls: seq<Call>, i: nat, j: nat)
    requires RunOk(states, calls) && i <= j <= |calls|
    requires states[i].synced
    requires forall k :: i <= k < j ==> NoFaults(calls[k].env.faults) && !Detaches(calls[k]) && !Overwrites(calls[k])
    ensures states[j].synced
    decreases j
  {
    hide Lifts, Settled, NoFaults, Detaches;
    if i < j {
      CleanMeansSaved(states, calls, i, j - 1);
      assert Stepped(states[j - 1], calls[j - 1], states[j]);
    }
  }

  // Boot with an unreadable file, then anything at all: until the latch is lifted the file is what recovery found.
  method LatchedFromBoot(store: ReadingStatsStore, other: Storage<StatsDoc>, boot: Env, calls: seq<Call>)
    returns (ghost states: seq<StoreState>)
    requires store.Valid() && other != store.storage
    requires var found := FoundDisk(store.storage.disk, boot.faults); found.main != Absent && !(found.main.Whole? && boot.parseOk)
    modifies store, store.storage, store.appState, other
    ensures store.Valid() && |states| == |calls| + 1 && states[|calls|] == StateOf(store)
    ensures RunOk(states, calls)
    ensures forall j :: 0 <= j <= |calls| && LeftAlone(states, calls, 0, j) ==>
              states[j].loadFailed && !states[j].dirty && states[j].disk == FoundDisk(old(store.storage.disk), boot.faults)
  {
    hide NeedsRewrite, SaveTrace, SaveReturns, SaveOutcome, Stepped, LedgerOk, Document, LeftAlone, SummaryHolds, Remembered;
    var ok := store.LoadFromFile(boot);
    var answers;
    states, answers := RunOperations(store, other, calls);
    forall j | 0 <= j <= |calls| && LeftAlone(states, calls, 0, j)
      ensures states[j].loadFailed && !states[j].dirty && states[j].disk == FoundDisk(old(store.storage.disk), boot.faults)
    {
      LatchedUntilLifted(states, calls, 0, j);
      assert StateOk(states[j]);
    }
  }

  // When the recovering rename fails at boot, the store is not latched although the only copy is in the
  // temp file, and its next save deletes that copy.
  method UnrecoveredFileIsLost(store: ReadingStatsStore, boot: Env, next: Env)
    requires store.Valid() && !store.activeSession.active && !store.loadFailed
    requires store.storage.disk.main == Absent && store.storage.disk.temp.Whole?
    requires boot.faults.renameFails && next.memoryOk
    modifies store, store.storage, store.appState
    ensures !store.loadFailed
    ensures store.storage.disk.temp == Absent
    ensures next.faults.openFails ==> store.storage.disk == Disk(Absent, Absent)
    ensures store.storage.disk.main in [Absent, Torn, Whole(store.Contents())]
  {
    hide NeedsRewrite, SaveOutcome, LedgerOk, SummaryHolds, Document, Remembered;
    var ok := store.LoadFromFile(boot);
    SavesSettle(store.storage.disk, store.Contents(), next.faults);
    NothingOldRemains(store.storage.disk, store.Contents(), next.faults);
    var saved := store.SaveToFile(next);
  }

  lemma NothingOldRemains(d: Disk<StatsDoc>, doc: StatsDoc, f: Faults)
    requires d.main == Absent && d.temp != Absent
    ensures Last(SaveTrace(d, doc, f)).main in [Absent, Torn, Whole(doc)]
    ensures f.openFails ==> Last(SaveTrace(d, doc, f)) == Disk(Absent, Absent)
  {
  }
}
