// The reading-statistics store (src/ReadingStatsStore.h, src/ReadingStatsStore.cpp).
module ReadingStats {
  import opened Wrappers
  import opened ReadingDays
  import opened Books
  import opened Ledger
  import opened Clock
  import opened Streaks
  import opened Summary
  import opened StatsDocument
  import opened SaveProtocol
  import opened StoreSteps

  class ReadingStatsStore {
    const storage: Storage<StatsDoc>
    const appState: AppState
    var books: seq<Book>
    var legacyReadingDays: seq<DayStats>
    var readingDays: seq<DayStats>
    var sessionLog: seq<SessionEntry>
    var activeSession: Session
    var lastSessionSnapshot: Snapshot
    var sessionSerialCounter: nat
    var summaryCache: SummaryCache
    var dirty: bool
    var lastSaveMs: nat
    var loadFailed: bool

    // What every public operation keeps.
    ghost predicate Valid()
      reads this
    {
      && LedgerOk(readingDays, legacyReadingDays, books)
      && (activeSession.active ==> activeSession.bookIndex < |books|)
      && (summaryCache.valid ==> SummaryHolds(summaryCache, readingDays, books))
      && (loadFailed ==> !dirty)
      && |sessionLog| <= MAX_SESSION_LOG_ENTRIES
    }

    // A clean store's file holds the store.
    ghost predicate Synced()
      reads this, storage
    {
      !loadFailed && !dirty ==> storage.disk.main == Whole(Contents())
    }

    function Contents(): StatsDoc
      reads this
    {
      Document(books, legacyReadingDays, readingDays, sessionLog)
    }

    constructor (storage: Storage<StatsDoc>, appState: AppState)
      ensures Valid() && this.storage == storage && this.appState == appState
      ensures books == [] && readingDays == [] && !activeSession.active && !dirty && !loadFailed
    {
      this.storage, this.appState := storage, appState;
      books, legacyReadingDays, readingDays, sessionLog := [], [], [], [];
      activeSession, lastSessionSnapshot, sessionSerialCounter := NO_SESSION, NO_SNAPSHOT, 0;
      summaryCache := EMPTY_CACHE;
      dirty, lastSaveMs, loadFailed := false, 0, false;
      new;
      NothingRecorded();
    }

    // ----- lookups -----

    method FindBookIndexByPath(lib: Library, path: string) returns (index: nat)
      ensures FirstByPath(lib, books, path, index)
    {
      if path == "" { return |books|; }
      var normalizedPath := lib.normalizePath(path);
      index := 0;
      while index < |books|
        invariant index <= |books|
        invariant forall k :: 0 <= k < index ==> !MatchesPath(lib, books[k], path)
      {
        var book := books[index];
        if book.path == normalizedPath || (normalizedPath != "" && normalizedPath in book.knownPaths) { return; }
        index := index + 1;
      }
    }

    method FindBookIndexByBookId(bookId: string) returns (index: nat)
      ensures FirstById(books, bookId, index)
    {
      if bookId == "" { return |books|; }
      index := 0;
      while index < |books|
        invariant index <= |books|
        invariant forall k :: 0 <= k < index ==> !MatchesId(books[k], bookId)
      {
        if books[index].bookId == bookId { return; }
        index := index + 1;
      }
    }

    method FindLegacyMergeCandidate(lib: Library, path: string, title: string, author: string) returns (candidateIndex: nat)
      ensures SoleCandidate(lib, books, path, title, author, candidateIndex)
    {
      hide LegacyCandidate;
      candidateIndex := |books|;
      var index := 0;
      while index < |books|
        invariant index <= |books|
        invariant candidateIndex == |books| || candidateIndex < index
        invariant forall k :: 0 <= k < index ==>
                    (LegacyCandidate(lib, books[k], path, title, author) <==> k == candidateIndex)
      {
        var candidate := IsCandidate(lib, books[index], path, title, author);
        if candidate {
          if candidateIndex != |books| {
            assert LegacyCandidate(lib, books[candidateIndex], path, title, author);
            return |books|;
          }
          candidateIndex := index;
        }
        index := index + 1;
      }
    }

    // The four tests of findLegacyMergeCandidate's loop.
    static method IsCandidate(lib: Library, book: Book, path: string, title: string, author: string) returns (r: bool)
      ensures r == LegacyCandidate(lib, book, path, title, author)
    {
      if !IsLegacyBookId(book.bookId) && lib.exists_(book.path) { return false; }
      if title == "" || book.title == "" || book.title != title { return false; }
      if author != "" && book.author != "" && book.author != author { return false; }
      if lib.extension(path) != "" && lib.extension(book.path) != lib.extension(path) { return false; }
      return true;
    }

    // ----- the clock -----

    method GetReferenceTimestamp(preferred: nat, ofBook: nat) returns (r: nat)
      ensures r == ReferenceTimestamp(appState.lastKnownValidTimestamp, books, preferred, ofBook)
    {
      if IsClockValid(preferred) { return preferred; }
      if IsClockValid(appState.lastKnownValidTimestamp) { return appState.lastKnownValidTimestamp; }
      var latestKnown := GetLatestKnownTimestamp(appState.lastKnownValidTimestamp, books);
      if IsClockValid(latestKnown) { return latestKnown; }
      return if IsClockValid(ofBook) then ofBook else 0;
    }

    method GetReferenceDayOrdinal(env: Env) returns (day: nat)
      ensures day == ReferenceDay(env, appState.lastKnownValidTimestamp, books, readingDays)
    {
      var reference := GetReferenceTimestamp(env.authoritative, 0);
      if IsClockValid(reference) { return LocalDay(reference, env.offsetQ); }
      if readingDays != [] { return readingDays[|readingDays| - 1].dayOrdinal; }
      return 0;
    }

    // ----- dirty state and saving -----

    method MarkDirty()
      modifies `dirty, `summaryCache
      ensures dirty == (old(dirty) || !loadFailed)
      ensures summaryCache == old(summaryCache).(valid := false)
    {
      summaryCache := summaryCache.(valid := false);
      if loadFailed { return; }
      dirty := true;
    }

    predicate ShouldSaveDeferred(env: Env)
      reads this
    {
      dirty && (!activeSession.active || Due(env, lastSaveMs))
    }

    method PersistToFile(env: Env) returns (saved: bool)
      modifies `dirty, `lastSaveMs, storage
      ensures loadFailed ==> !saved && storage.disk == old(storage.disk) && dirty == old(dirty)
      ensures !loadFailed && !env.memoryOk ==> !saved && storage.disk == old(storage.disk) && dirty == old(dirty)
      ensures !loadFailed && env.memoryOk ==>
                && saved == SaveReturns(old(storage.disk), env.faults)
                && storage.disk == Last(SaveTrace(old(storage.disk), Contents(), env.faults))
                && dirty == (old(dirty) && !saved)
      ensures lastSaveMs == if !loadFailed && (!env.memoryOk || saved) then env.millis else old(lastSaveMs)
    {
      hide SaveReturns, SaveSteps, SaveTrace, Document;
      if loadFailed { return false; }
      if !env.memoryOk {
        lastSaveMs := env.millis;
        return false;
      }
      var document := Document(books, legacyReadingDays, readingDays, sessionLog);
      PathIsUsable();
      saved := storage.SaveJsonDocument(STATS_PATH, document, env.faults);
      if saved {
        dirty := false;
        lastSaveMs := env.millis;
      }
    }

    // Nothing to do, put off while reading, or written.
    method SaveToFile(env: Env) returns (ok: bool)
      modifies `dirty, `lastSaveMs, storage
      ensures ok == SaveOk(env, old(dirty), activeSession.active, old(lastSaveMs), loadFailed, old(storage.disk))
      ensures if SaveSkipped(env, old(dirty), activeSession.active, old(lastSaveMs), old(storage.disk))
                 || loadFailed || !env.memoryOk then storage.disk == old(storage.disk) && dirty == old(dirty)
              else
                && storage.disk == Last(SaveTrace(old(storage.disk), Contents(), env.faults))
                && dirty == (old(dirty) && !ok)
      ensures NoFaults(env.faults) && old(Synced()) ==> Synced()
    {
      hide SaveReturns, SaveTrace, Document, Due, NoFaults;
      CleanSaveStores(storage.disk, Contents(), env.faults);
      if !dirty && storage.disk.main != Absent { return true; }
      if activeSession.active && !ShouldSaveDeferred(env) { return true; }
      ok := PersistToFile(env);
    }

    // ----- the session -----

    // recordReadingTime: the book's day and the aggregate's day gain the same time.
    method RecordReadingTime(index: nat, epochSeconds: nat, readingMs: nat, offsetQ: nat)
      requires index < |books| && Sorted(books[index].readingDays) && Sorted(readingDays)
      modifies `books, `readingDays
      ensures var day := LocalDay(epochSeconds, offsetQ);
              if !IsClockValid(epochSeconds) || readingMs == 0 then books == old(books) && readingDays == old(readingDays)
              else
                && (var b := old(books)[index];
                    books == old(books)[index := b.(readingDays := Upsert(b.readingDays, day, readingMs))])
                && readingDays == Upsert(old(readingDays), day, readingMs)
    {
      hide LocalDay;
      if !IsClockValid(epochSeconds) || readingMs == 0 { return; }
      var day := LocalDay(epochSeconds, offsetQ);
      var bookDays := CreditDay(books[index].readingDays, day, readingMs);
      books := books[index := books[index].(readingDays := bookDays)];
      readingDays := CreditDay(readingDays, day, readingMs);
    }

    method NoteActivity(env: Env)
      requires Valid()
      modifies `books, `readingDays, `activeSession, `summaryCache, `dirty, `lastSaveMs, storage
      ensures Valid()
      ensures !old(activeSession).active ==>
                && books == old(books) && readingDays == old(readingDays) && activeSession == old(activeSession)
                && dirty == old(dirty) && storage.disk == old(storage.disk) && summaryCache == old(summaryCache)
      ensures old(activeSession).active ==>
                var s, last := old(activeSession), appState.lastKnownValidTimestamp;
                && books == BooksRead(env, last, old(books), s)
                && readingDays == DaysRead(env, last, old(books), s, old(readingDays))
                && activeSession == s.(accumulatedMs := s.accumulatedMs + CreditedMs(env, s), lastInteractionMs := env.millis)
      ensures old(activeSession).active && Due(env, old(lastSaveMs)) && CanSave(env, loadFailed) ==> !dirty
      ensures loadFailed ==> storage.disk == old(storage.disk)
      ensures SaveOutcome(old(storage.disk), storage.disk, Contents(), env.faults)
      ensures NoFaults(env.faults) && old(Synced()) ==> Synced()
    {
      hide LedgerOk, SummaryHolds, BooksRead, DaysRead, CreditedMs, SaveTrace, SaveReturns, Document, Due, NoFaults;
      if !activeSession.active || activeSession.bookIndex >= |books| { return; }
      CreditActivity(env);
      activeSession := activeSession.(lastInteractionMs := env.millis);
      SavesWithoutFaults(storage.disk, env.faults);
      SaveIfDue(env);
    }

    // The crediting half of noteActivity.
    method CreditActivity(env: Env)
      requires Valid() && activeSession.active
      modifies `books, `readingDays, `activeSession, `summaryCache, `dirty
      ensures Valid()
      ensures var s, last := old(activeSession), appState.lastKnownValidTimestamp;
              && books == BooksRead(env, last, old(books), s)
              && readingDays == DaysRead(env, last, old(books), s, old(readingDays))
              && activeSession == s.(accumulatedMs := s.accumulatedMs + CreditedMs(env, s))
      ensures loadFailed || dirty || Contents() == old(Contents())
      ensures old(dirty) ==> dirty
    {
      hide LedgerOk, SummaryHolds, ReferenceTimestamp, LocalDay, Upsert, Elapsed, IsClockValid, Sorted;
      hide Stamped, DaysFit, AllDaysOk, DaysOk, NoDayZero, Document;
      var index := activeSession.bookIndex;
      ghost var booksRead := BooksRead(env, appState.lastKnownValidTimestamp, books, activeSession);
      ghost var daysRead := DaysRead(env, appState.lastKnownValidTimestamp, books, activeSession, readingDays);
      LedgerGives(readingDays, legacyReadingDays, books, index);
      ReadKeepsLedger(env, appState.lastKnownValidTimestamp, books, activeSession, readingDays, legacyReadingDays);
      var elapsedMs := Elapsed(env.millis, activeSession.lastInteractionMs);
      var creditedMs := if elapsedMs < MAX_READING_GAP_MS then elapsedMs else MAX_READING_GAP_MS;
      if creditedMs > 0 {
        var reference := GetReferenceTimestamp(env.authoritative, books[index].lastReadAt);
        books := books[index := books[index].(totalReadingMs := books[index].totalReadingMs + creditedMs)];
        activeSession := activeSession.(accumulatedMs := activeSession.accumulatedMs + creditedMs);
        RecordReadingTime(index, reference, creditedMs, env.offsetQ);
        StampBook(index, reference);
        assert books == booksRead && readingDays == daysRead;
        MarkDirty();
      }
    }

    // updateBookReadTimestamp, once the reference is determined.
    method StampBook(index: nat, reference: nat)
      requires index < |books|
      modifies `books
      ensures books == old(books)[index := Stamped(old(books)[index], reference)]
    {
      if !IsClockValid(reference) { return; }
      if books[index].firstReadAt == 0 {
        books := books[index := books[index].(firstReadAt := reference)];
      }
      books := books[index := books[index].(lastReadAt := reference)];
    }

    method SaveIfDue(env: Env)
      requires loadFailed ==> !dirty
      modifies `dirty, `lastSaveMs, storage
      ensures !old(ShouldSaveDeferred(env)) ==> storage.disk == old(storage.disk) && dirty == old(dirty)
      ensures old(ShouldSaveDeferred(env)) && env.memoryOk ==>
                && storage.disk == Last(SaveTrace(old(storage.disk), Contents(), env.faults))
                && dirty == !SaveReturns(old(storage.disk), env.faults)
      ensures old(ShouldSaveDeferred(env)) && !env.memoryOk ==> storage.disk == old(storage.disk) && dirty
      ensures NoFaults(env.faults) && old(Synced()) ==> Synced()
    {
      hide SaveReturns, SaveTrace, Document, Due, NoFaults;
      if ShouldSaveDeferred(env) {
        var saved := SaveToFile(env);
      }
    }

    method TickActiveSession(env: Env)
      requires Valid()
      modifies `books, `readingDays, `activeSession, `summaryCache, `dirty, `lastSaveMs, storage
      ensures Valid()
      ensures var s := old(activeSession);
              if s.active && Elapsed(env.millis, s.lastInteractionMs) >= SESSION_HEARTBEAT_MS then
                && books == BooksRead(env, appState.lastKnownValidTimestamp, old(books), s)
                && readingDays == DaysRead(env, appState.lastKnownValidTimestamp, old(books), s, old(readingDays))
                && activeSession == s.(accumulatedMs := s.accumulatedMs + CreditedMs(env, s), lastInteractionMs := env.millis)
              else books == old(books) && readingDays == old(readingDays) && activeSession == s
      ensures loadFailed ==> storage.disk == old(storage.disk)
      ensures SaveOutcome(old(storage.disk), storage.disk, Contents(), env.faults)
      ensures NoFaults(env.faults) && old(Synced()) ==> Synced()
    {
      if !activeSession.active || activeSession.bookIndex >= |books| { return; }
      if Elapsed(env.millis, activeSession.lastInteractionMs) < SESSION_HEARTBEAT_MS { return; }
      NoteActivity(env);
    }

    // A pause does not count as reading.
    method ResumeSession(env: Env)
      modifies `activeSession
      ensures activeSession == if old(activeSession).active then old(activeSession).(lastInteractionMs := env.millis)
                               else old(activeSession)
    {
      if !activeSession.active { return; }
      activeSession := activeSession.(lastInteractionMs := env.millis);
    }

    method EndSession(env: Env)
      requires Valid()
      modifies `books, `readingDays, `sessionLog, `activeSession, `lastSessionSnapshot, `sessionSerialCounter
      modifies `summaryCache, `dirty, `lastSaveMs, storage
      ensures Valid() && activeSession == NO_SESSION
      ensures !old(activeSession).active ==>
                && books == old(books) && readingDays == old(readingDays) && sessionLog == old(sessionLog)
                && lastSessionSnapshot == NO_SNAPSHOT && sessionSerialCounter == old(sessionSerialCounter)
                && dirty == old(dirty) && storage.disk == old(storage.disk)
      ensures old(activeSession).active ==>
                var s, last := old(activeSession), appState.lastKnownValidTimestamp;
                var read := BooksRead(env, last, old(books), s);
                var t := SessionClosed(env, s);
                && books == BooksEnded(read, t)
                && readingDays == DaysRead(env, last, old(books), s, old(readingDays))
                && sessionLog == LogEnded(env, last, read, t, old(sessionLog))
                && sessionSerialCounter == NextSerial(old(sessionSerialCounter))
                && lastSessionSnapshot == SnapshotOf(books[s.bookIndex], t, sessionSerialCounter)
      ensures old(activeSession).active && CanSave(env, loadFailed) ==> !dirty
      ensures NoFaults(env.faults) && old(Synced()) ==> Synced()
      ensures old(activeSession).active && CanSave(env, loadFailed) && old(Synced()) ==>
                storage.disk.main == Whole(Contents())
      ensures loadFailed ==> storage.disk == old(storage.disk)
    {
      hide LedgerOk, SummaryHolds, BooksRead, DaysRead, CreditedMs, SaveReturns, SaveTrace, Document, BooksEnded, LogEnded, SnapshotOf;
      if !activeSession.active || activeSession.bookIndex >= |books| {
        lastSessionSnapshot := NO_SNAPSHOT;
        activeSession := NO_SESSION;
        return;
      }
      NoteActivity(env);
      CountSession(env);
      activeSession := NO_SESSION;
      SavesWithoutFaults(storage.disk, env.faults);
      var saved := SaveToFile(env);
    }

    // The part of endSession between the last activity and the save.
    method CountSession(env: Env)
      requires Valid() && activeSession.active
      modifies `books, `sessionLog, `lastSessionSnapshot, `sessionSerialCounter, `summaryCache, `dirty
      ensures Valid()
      ensures books == BooksEnded(old(books), activeSession)
      ensures sessionLog == LogEnded(env, appState.lastKnownValidTimestamp, old(books), activeSession, old(sessionLog))
      ensures sessionSerialCounter == NextSerial(old(sessionSerialCounter))
      ensures activeSession.bookIndex < |books|
      ensures lastSessionSnapshot == SnapshotOf(books[activeSession.bookIndex], activeSession, sessionSerialCounter)
      ensures loadFailed || dirty || Contents() == old(Contents())
      ensures old(dirty) ==> dirty
    {
      hide LedgerOk, SummaryHolds, ReferenceTimestamp, LocalDay, IsClockValid, Logged, Document;
      var index := activeSession.bookIndex;
      var counted := activeSession.accumulatedMs >= MIN_SESSION_READING_MS;
      var sessionMs := if activeSession.accumulatedMs > UINT32_MAX then UINT32_MAX else activeSession.accumulatedMs;
      if counted {
        var book := books[index].(sessions := books[index].sessions + 1, lastSessionMs := sessionMs);
        SameDaysKeepLedger(readingDays, legacyReadingDays, books, index, book);
        books := books[index := book];
        var timestamp := GetReferenceTimestamp(env.authoritative, book.lastReadAt);
        if IsClockValid(timestamp) {
          AppendSessionLogEntry(LocalDay(timestamp, env.offsetQ), sessionMs);
        }
        MarkDirty();
      }
      sessionSerialCounter := NextSerial(sessionSerialCounter);
      var book := books[index];
      lastSessionSnapshot := Snapshot(true, sessionSerialCounter, book.bookId, book.path, sessionMs, counted,
                                      !activeSession.startCompleted && book.completed,
                                      activeSession.startProgressPercent, book.lastProgressPercent);
    }

    method AppendSessionLogEntry(dayOrdinal: nat, sessionMs: nat)
      requires |sessionLog| <= MAX_SESSION_LOG_ENTRIES
      modifies `sessionLog
      ensures sessionLog == Logged(old(sessionLog), dayOrdinal, sessionMs)
    {
      if dayOrdinal == 0 || sessionMs == 0 { return; }
      sessionLog := sessionLog + [SessionEntry(dayOrdinal, sessionMs)];
      if |sessionLog| > MAX_SESSION_LOG_ENTRIES {
        sessionLog := sessionLog[|sessionLog| - MAX_SESSION_LOG_ENTRIES..];
      }
    }

    // ----- opening a book -----

    method GetOrCreateBookIndex(lib: Library, path: string, title: string, author: string, cover: string, preferredBookId: string)
      returns (index: nat)
      requires LedgerOk(readingDays, legacyReadingDays, books)
      modifies `books
      ensures LedgerOk(readingDays, legacyReadingDays, books) && index < |books|
      ensures exists i: nat :: Denotes(lib, old(books), lib.normalizePath(path), title, author, ResolvedId(lib, path, preferredBookId), i)
                          && FoundOrMade(lib, old(books), books, lib.normalizePath(path), title, author, cover,
                                         ResolvedId(lib, path, preferredBookId), i, index)
    {
      hide LedgerOk, Denotes, Identified, FirstByPath, FirstById, SoleCandidate;
      var normalizedPath := lib.normalizePath(path);
      var resolvedBookId := if preferredBookId != "" then preferredBookId else lib.resolveStableBookId(normalizedPath);
      index := LocateBook(lib, normalizedPath, title, author, resolvedBookId);
      IndexInRange(lib, books, normalizedPath, title, author, resolvedBookId, index);
      ghost var i := index;
      ghost var before := books;
      assert Denotes(lib, before, normalizedPath, title, author, resolvedBookId, i);
      if index == |books| {
        var book := NewBook(normalizedPath, title, author, cover, resolvedBookId);
        NewBookKeepsLedger(readingDays, legacyReadingDays, books, book);
        books := [book] + books;
        index := 0;
        assert FoundOrMade(lib, before, books, lib.normalizePath(path), title, author, cover,
                           ResolvedId(lib, path, preferredBookId), i, index);
        return;
      }
      var book := Identified(lib, books[index], normalizedPath, title, author, cover, resolvedBookId);
      IdentifiedDays(lib, books[index], normalizedPath, title, author, cover, resolvedBookId);
      SameDaysKeepLedger(readingDays, legacyReadingDays, books, index, book);
      books := books[index := book];
      assert FoundOrMade(lib, before, books, lib.normalizePath(path), title, author, cover,
                         ResolvedId(lib, path, preferredBookId), i, index);
    }

    method LocateBook(lib: Library, path: string, title: string, author: string, id: string) returns (index: nat)
      ensures Denotes(lib, books, path, title, author, id, index)
    {
      hide SoleCandidate, MatchesPath;
      index := FindBookIndexByPath(lib, path);
      if index == |books| && id != "" {
        index := FindBookIndexByBookId(id);
      }
      if index == |books| {
        index := FindLegacyMergeCandidate(lib, path, title, author);
      }
    }

    // The most recent book goes first; the session follows its book.
    method TouchBook(index: nat)
      requires LedgerOk(readingDays, legacyReadingDays, books)
      requires activeSession.active ==> activeSession.bookIndex < |books|
      modifies `books, `activeSession
      ensures LedgerOk(readingDays, legacyReadingDays, books)
      ensures books == if index < |old(books)| then MovedToFront(old(books), index) else old(books)
      ensures activeSession == old(activeSession).(bookIndex := activeSession.bookIndex)
      ensures activeSession.active ==>
                && activeSession.bookIndex < |books|
                && books[activeSession.bookIndex] == old(books)[old(activeSession).bookIndex]
    {
      hide LedgerOk;
      if index == 0 || index >= |books| {
        assert |books| > 0 ==> MovedToFront(books, 0) == books;
        return;
      }
      MovingKeepsLedger(readingDays, legacyReadingDays, books, index);
      var book := books[index];
      books := books[..index] + books[index + 1..];
      books := [book] + books;
      if activeSession.active {
        if activeSession.bookIndex == index {
          activeSession := activeSession.(bookIndex := 0);
        } else if activeSession.bookIndex < index {
          activeSession := activeSession.(bookIndex := activeSession.bookIndex + 1);
        }
      }
    }

    // The body of beginSession, once no session is active and the path counts.
    method OpenBook(env: Env, path: string, title: string, author: string, cover: string,
                    progress: nat, chapter: string, chapterProgress: nat)
      requires Valid() && !activeSession.active
      modifies `books, `activeSession, `summaryCache, `dirty
      ensures Valid()
      ensures exists i: nat :: Denotes(env.lib, old(books), env.lib.normalizePath(path), title, author, SessionId(env.lib, path), i)
                          && Opened(env, appState.lastKnownValidTimestamp, old(books), books, activeSession,
                                    path, title, author, cover, progress, chapter, chapterProgress, i)
      ensures loadFailed || dirty
    {
      hide LedgerOk, SummaryHolds, Denotes, ReferenceTimestamp, Identified, Stamped, FoundOrMade, MovedToFront;
      hide WithProgress, NewBook, Without, ResolvedId, ClampPercent;
      var resolvedBookId := env.lib.resolveStableBookId(path);
      ghost var before := books;
      var index := GetOrCreateBookIndex(env.lib, path, title, author, cover, resolvedBookId);
      ghost var found := books;
      ghost var i: nat :| Denotes(env.lib, before, env.lib.normalizePath(path), title, author, SessionId(env.lib, path), i)
                     && FoundOrMade(env.lib, before, found, env.lib.normalizePath(path), title, author, cover,
                                    SessionId(env.lib, path), i, index);
      TouchBook(index);
      MovedFound(env.lib, before, found, env.lib.normalizePath(path), title, author, cover, SessionId(env.lib, path), i, index);
      ghost var rest := books[1..];
      var book := books[0];
      ghost var b := book;
      activeSession := activeSession.(startProgressPercent := book.lastProgressPercent, startCompleted := book.completed);
      SetProgress(0, progress, false, chapter, chapterProgress);
      book := books[0];
      var reference := GetReferenceTimestamp(env.authoritative, book.lastReadAt);
      assert books == [book] + rest;
      StampedDays(book, reference);
      SameDaysKeepLedger(readingDays, legacyReadingDays, books, 0, Stamped(book, reference));
      StampBook(0, reference);
      assert books == [Stamped(book, reference)] + rest;
      activeSession := Session(true, 0, env.millis, 0, activeSession.startProgressPercent, activeSession.startCompleted);
      MarkDirty();
      assert Opened(env, appState.lastKnownValidTimestamp, before, books, activeSession,
                    path, title, author, cover, progress, chapter, chapterProgress, i);
    }

    // The progress fields of a book.
    method SetProgress(index: nat, progress: nat, completed: bool, chapter: string, chapterProgress: nat)
      requires LedgerOk(readingDays, legacyReadingDays, books) && index < |books|
      modifies `books
      ensures LedgerOk(readingDays, legacyReadingDays, books)
      ensures books == old(books)[index := WithProgress(old(books)[index], progress, completed, chapter, chapterProgress)]
    {
      hide LedgerOk;
      var book := books[index].(lastProgressPercent := ClampPercent(progress), chapterTitle := chapter,
                                chapterProgressPercent := ClampPercent(chapterProgress));
      if completed || book.lastProgressPercent >= 100 { book := book.(completed := true); }
      SameDaysKeepLedger(readingDays, legacyReadingDays, books, index, book);
      books := books[index := book];
    }

    method BeginSession(env: Env, path: string, title: string, author: string, cover: string,
                        progress: nat, chapter: string, chapterProgress: nat)
      requires Valid()
      modifies `books, `readingDays, `sessionLog, `activeSession, `lastSessionSnapshot, `sessionSerialCounter
      modifies `summaryCache, `dirty, `lastSaveMs, storage
      ensures Valid()
      ensures path == "" ==>
                && books == old(books) && readingDays == old(readingDays) && activeSession == old(activeSession)
                && sessionLog == old(sessionLog) && lastSessionSnapshot == old(lastSessionSnapshot)
                && dirty == old(dirty) && storage.disk == old(storage.disk)
      ensures path != "" && env.lib.ignored(path) ==> activeSession == NO_SESSION && lastSessionSnapshot == NO_SNAPSHOT
      ensures path != "" ==>
                var last, s := appState.lastKnownValidTimestamp, old(activeSession);
                && readingDays == DaysClosed(env, last, old(books), s, old(readingDays))
                && sessionLog == LogClosed(env, last, old(books), s, old(sessionLog))
                && sessionSerialCounter == (if s.active then NextSerial(old(sessionSerialCounter)) else old(sessionSerialCounter))
                && (s.active && !env.lib.ignored(path) ==>
                      lastSessionSnapshot
                      == SnapshotOf(BooksClosed(env, last, old(books), s)[s.bookIndex], SessionClosed(env, s), sessionSerialCounter))
                && (s.active && CanSave(env, loadFailed) && old(Synced()) ==>
                      storage.disk.main
                      == Whole(ContentsClosed(env, last, old(books), legacyReadingDays, old(readingDays), old(sessionLog), s)))
                && (!s.active ==> storage.disk == old(storage.disk))
      ensures NoFaults(env.faults) && old(Synced()) ==> Synced()
      ensures path != "" && !env.lib.ignored(path) ==>
                exists i: nat :: Denotes(env.lib, BooksClosed(env, appState.lastKnownValidTimestamp, old(books), old(activeSession)),
                                    env.lib.normalizePath(path), title, author, SessionId(env.lib, path), i)
                            && Opened(env, appState.lastKnownValidTimestamp,
                                      BooksClosed(env, appState.lastKnownValidTimestamp, old(books), old(activeSession)),
                                      books, activeSession, path, title, author, cover, progress, chapter, chapterProgress, i)
      ensures loadFailed ==> storage.disk == old(storage.disk)
    {
      hide LedgerOk, SummaryHolds, Denotes, Opened, BooksRead, BooksEnded, DaysRead, LogEnded, SnapshotOf, SaveReturns, CreditedMs;
      if path == "" { return; }
      if activeSession.active { EndSession(env); }
      assert books == BooksClosed(env, appState.lastKnownValidTimestamp, old(books), old(activeSession));
      if env.lib.ignored(path) {
        activeSession := NO_SESSION;
        lastSessionSnapshot := NO_SNAPSHOT;
        return;
      }
      OpenBook(env, path, title, author, cover, progress, chapter, chapterProgress);
    }

    // The part of updateProgress that changes the book.
    method RecordProgress(env: Env, index: nat, completionChanged: bool,
                          progress: nat, completed: bool, chapter: string, chapterProgress: nat)
      requires LedgerOk(readingDays, legacyReadingDays, books) && index < |books|
      requires WithProgress(books[index], progress, completed, chapter, chapterProgress) != books[index]
      requires completionChanged
           <==> !books[index].completed && WithProgress(books[index], progress, completed, chapter, chapterProgress).completed
      modifies `books
      ensures LedgerOk(readingDays, legacyReadingDays, books)
      ensures books == BooksProgressed(env, appState.lastKnownValidTimestamp, old(books), index,
                                       progress, completed, chapter, chapterProgress)
    {
      hide LedgerOk, ReferenceTimestamp, Stamped, WithProgress;
      ghost var before := books;
      SetProgress(index, progress, completed, chapter, chapterProgress);
      var reference := GetReferenceTimestamp(env.authoritative, books[index].lastReadAt);
      StampBook(index, reference);
      if completionChanged && books[index].completedAt == 0 {
        books := books[index := books[index].(completedAt := books[index].lastReadAt)];
      }
      ProgressedDays(env, appState.lastKnownValidTimestamp, before, index, progress, completed, chapter, chapterProgress);
      assert books == before[index := books[index]];
      SameDaysKeepLedger(readingDays, legacyReadingDays, before, index, books[index]);
    }

    method UpdateProgress(env: Env, progress: nat, completed: bool, chapter: string, chapterProgress: nat)
      requires Valid()
      modifies `books, `summaryCache, `dirty, `lastSaveMs, storage
      ensures Valid()
      ensures books == if old(activeSession).active
                       then BooksProgressed(env, appState.lastKnownValidTimestamp, old(books), activeSession.bookIndex,
                                            progress, completed, chapter, chapterProgress)
                       else old(books)
      ensures books != old(books) && Due(env, old(lastSaveMs)) && CanSave(env, loadFailed) ==> !dirty
      ensures loadFailed ==> storage.disk == old(storage.disk)
      ensures SaveOutcome(old(storage.disk), storage.disk, Contents(), env.faults)
      ensures NoFaults(env.faults) && old(Synced()) ==> Synced()
    {
      hide LedgerOk, SummaryHolds, ReferenceTimestamp, Stamped, Document, SaveTrace, SaveReturns, WithProgress, Due, NoFaults;
      if !activeSession.active || activeSession.bookIndex >= |books| { return; }
      var index := activeSession.bookIndex;
      var book := books[index];
      ProgressUnchanged(book, progress, completed, chapter, chapterProgress);
      var clampedBookProgress, clampedChapterProgress := ClampPercent(progress), ClampPercent(chapterProgress);
      var progressChanged := book.lastProgressPercent != clampedBookProgress;
      var chapterTitleChanged := book.chapterTitle != chapter;
      var chapterProgressChanged := book.chapterProgressPercent != clampedChapterProgress;
      var completionChanged := !book.completed && (completed || clampedBookProgress >= 100);
      if !progressChanged && !chapterTitleChanged && !chapterProgressChanged && !completionChanged { return; }
      RecordProgress(env, index, completionChanged, progress, completed, chapter, chapterProgress);
      MarkDirty();
      SavesWithoutFaults(storage.disk, env.faults);
      SaveIfDue(env);
    }

    // ----- editing the ledger -----

    method RebuildAggregatedReadingDays()
      requires NoDayZero(legacyReadingDays) && AllDaysOk(books)
      modifies `readingDays
      ensures LedgerOk(readingDays, legacyReadingDays, books)
    {
      readingDays := RebuildAggregated(legacyReadingDays, books);
      RebuiltIsLedger(readingDays, legacyReadingDays, books);
    }

    // Adds to or takes from a book's day. A removal the day or the book cannot cover is refused.
    method AdjustBookReadingTime(env: Env, path: string, dayOrdinal: nat, deltaMs: int) returns (ok: bool)
      requires Valid()
      modifies `books, `readingDays, `summaryCache, `dirty, `lastSaveMs, storage
      ensures Valid()
      ensures (dayOrdinal == 0 || deltaMs == 0) ==> !ok && books == old(books) && readingDays == old(readingDays)
      ensures dayOrdinal != 0 && deltaMs != 0 ==>
                exists index: nat :: FirstByPath(env.lib, old(books), path, index)
                  && if index < |old(books)| && Covers(old(books)[index], dayOrdinal, deltaMs) then
                       && books == old(books)[index := Adjusted(old(books)[index], dayOrdinal, deltaMs)]
                       && AdjustedTimes(old(readingDays), readingDays, dayOrdinal, deltaMs)
                       && ok == SaveOk(env, old(dirty) || !loadFailed, activeSession.active, old(lastSaveMs), loadFailed,
                                       old(storage.disk))
                     else !ok && books == old(books) && readingDays == old(readingDays) && storage.disk == old(storage.disk)
      ensures books != old(books) && !activeSession.active && CanSave(env, loadFailed) ==> ok && !dirty
      ensures loadFailed ==> storage.disk == old(storage.disk)
      ensures SaveOutcome(old(storage.disk), storage.disk, Contents(), env.faults)
      ensures NoFaults(env.faults) && old(Synced()) ==> Synced()
    {
      hide LedgerOk, SummaryHolds, FirstByPath, AdjustedTimes, SaveTrace, SaveReturns, Document, Covers, Elapsed;
      if dayOrdinal == 0 || deltaMs == 0 { return false; }
      var index := FindBookIndexByPath(env.lib, path);
      IndexByPath(env.lib, books, path, index);
      if index >= |books| { return false; }
      ghost var before, daysBefore := books, readingDays;
      var changed := AdjustBook(index, dayOrdinal, deltaMs);
      if !changed { return false; }
      RebuildAggregatedReadingDays();
      AdjustMeans(daysBefore, readingDays, legacyReadingDays, before, index, dayOrdinal, deltaMs);
      MarkDirty();
      SavesWithoutFaults(storage.disk, env.faults);
      ok := SaveToFile(env);
    }

    method AdjustBook(index: nat, dayOrdinal: nat, deltaMs: int) returns (changed: bool)
      requires index < |books| && LedgerOk(readingDays, legacyReadingDays, books) && dayOrdinal != 0 && deltaMs != 0
      modifies `books
      ensures changed <==> Covers(old(books)[index], dayOrdinal, deltaMs)
      ensures books == if changed then old(books)[index := Adjusted(old(books)[index], dayOrdinal, deltaMs)] else old(books)
      ensures NoDayZero(legacyReadingDays) && AllDaysOk(books)
    {
      hide LedgerOk, Upsert, Reduced;
      LedgerGives(readingDays, legacyReadingDays, books, index);
      var book := books[index];
      if deltaMs > 0 {
        UpsertFits(book.readingDays, dayOrdinal, deltaMs);
        var days := AddReadingToDays(book.readingDays, dayOrdinal, deltaMs);
        book := book.(readingDays := days, totalReadingMs := book.totalReadingMs + deltaMs);
      } else {
        ReducedFits(book.readingDays, dayOrdinal, -deltaMs);
        var days;
        changed, days := TakeOff(book.readingDays, dayOrdinal, -deltaMs, book.totalReadingMs);
        if !changed { return; }
        book := book.(readingDays := days, totalReadingMs := book.totalReadingMs + deltaMs);
      }
      books := books[index := book];
      return true;
    }

    // The session of another book goes on; the removed book takes its days and its session with it.
    method RemoveBook(env: Env, path: string) returns (ok: bool)
      requires Valid()
      modifies `books, `readingDays, `activeSession, `summaryCache, `dirty, `lastSaveMs, storage
      ensures Valid()
      ensures exists index: nat :: FirstByPath(env.lib, old(books), path, index)
                && ok == (index < |old(books)|)
                && if !ok then books == old(books) && readingDays == old(readingDays) && activeSession == old(activeSession)
                   else
                     && books == Without(old(books), index)
                     && TimesWithout(old(readingDays), readingDays, old(books)[index])
                     && SessionFollows(old(activeSession), old(books), index, activeSession, books)
      ensures ok && !activeSession.active && CanSave(env, loadFailed) ==> !dirty
      ensures loadFailed ==> storage.disk == old(storage.disk)
      ensures SaveOutcome(old(storage.disk), storage.disk, Contents(), env.faults)
      ensures NoFaults(env.faults) && old(Synced()) ==> Synced()
    {
      hide LedgerOk, SummaryHolds, FirstByPath, TimesWithout, SaveTrace, SaveReturns, Document, Elapsed;
      var index := FindBookIndexByPath(env.lib, path);
      IndexByPath(env.lib, books, path, index);
      if index >= |books| { return false; }
      ghost var before, daysBefore := books, readingDays;
      EraseBook(index);
      if activeSession.active {
        if activeSession.bookIndex == index {
          activeSession := NO_SESSION;
        } else if activeSession.bookIndex > index {
          activeSession := activeSession.(bookIndex := activeSession.bookIndex - 1);
        }
      }
      MarkDirty();
      SavesWithoutFaults(storage.disk, env.faults);
      var saved := SaveToFile(env);
      return true;
    }

    method EraseBook(index: nat)
      requires LedgerOk(readingDays, legacyReadingDays, books) && index < |books|
      modifies `books, `readingDays
      ensures LedgerOk(readingDays, legacyReadingDays, books)
      ensures books == Without(old(books), index)
      ensures TimesWithout(old(readingDays), readingDays, old(books)[index])
    {
      hide LedgerOk;
      LedgerGives(readingDays, legacyReadingDays, books, index);
      WithoutDays(books, index);
      ghost var before, daysBefore := books, readingDays;
      var hadBookReadingDays := books[index].readingDays != [];
      if !hadBookReadingDays { ErasingUnreadKeepsLedger(readingDays, legacyReadingDays, books, index); }
      books := books[..index] + books[index + 1..];
      if hadBookReadingDays { RebuildAggregatedReadingDays(); }
      ErasedTimes(daysBefore, readingDays, legacyReadingDays, before, index);
    }

    method UpdateBookMetadata(env: Env, path: string, title: string, author: string, cover: string) returns (changed: bool)
      requires Valid()
      modifies `books, `summaryCache, `dirty, `lastSaveMs, storage
      ensures Valid()
      ensures env.lib.ignored(path) ==> !changed && books == old(books)
      ensures !env.lib.ignored(path) ==>
                exists index: nat :: FirstByPath(env.lib, old(books), path, index)
                  && books == if index < |old(books)| then old(books)[index := Described(old(books)[index], title, author, cover)]
                              else old(books)
      ensures changed <==> books != old(books)
      ensures changed && (!activeSession.active || Due(env, old(lastSaveMs))) && CanSave(env, loadFailed) ==> !dirty
      ensures loadFailed ==> storage.disk == old(storage.disk)
      ensures SaveOutcome(old(storage.disk), storage.disk, Contents(), env.faults)
      ensures NoFaults(env.faults) && old(Synced()) ==> Synced()
    {
      hide LedgerOk, SummaryHolds, FirstByPath, SaveTrace, SaveReturns, Document, Due, NoFaults;
      if env.lib.ignored(path) { return false; }
      var index := FindBookIndexByPath(env.lib, path);
      IndexByPath(env.lib, books, path, index);
      if index >= |books| { return false; }
      ghost var before := books;
      var it := books[index];
      changed := false;
      if title != "" && it.title != title { it := it.(title := title); changed := true; }
      if author != "" && it.author != author { it := it.(author := author); changed := true; }
      if cover != "" && it.coverBmpPath != cover { it := it.(coverBmpPath := cover); changed := true; }
      books := books[index := it];
      assert it == Described(before[index], title, author, cover);
      assert books[index] == it;
      if changed {
        SameDaysKeepLedger(readingDays, legacyReadingDays, before, index, it);
        MarkDirty();
        SavesWithoutFaults(storage.disk, env.faults);
        SaveIfDue(env);
      } else {
        assert books == before;
      }
    }

    // A moved book keeps all it has recorded, under its new path.
    method UpdateBookPath(env: Env, oldKey: string, newPath: string, title: string, author: string, cover: string, bookId: string)
      returns (ok: bool)
      requires Valid()
      modifies `books, `summaryCache, `dirty, `lastSaveMs, storage
      ensures Valid()
      ensures var normalized := env.lib.normalizePath(newPath);
              normalized == "" || env.lib.ignored(normalized) ==> !ok && books == old(books)
      ensures var normalized := env.lib.normalizePath(newPath);
              normalized != "" && !env.lib.ignored(normalized) ==>
                exists index: nat :: KnownBy(env.lib, old(books), oldKey, bookId, index)
                  && ok == (index < |old(books)|)
                  && books == if ok then old(books)[index := Moved(env.lib, old(books)[index], oldKey, normalized,
                                                                    title, author, cover, bookId)]
                              else old(books)
      ensures ok && !activeSession.active && CanSave(env, loadFailed) ==> !dirty
      ensures loadFailed ==> storage.disk == old(storage.disk)
      ensures SaveOutcome(old(storage.disk), storage.disk, Contents(), env.faults)
      ensures NoFaults(env.faults) && old(Synced()) ==> Synced()
    {
      hide LedgerOk, SummaryHolds, FirstByPath, FirstById, SaveTrace, SaveReturns, Document, Moved, Elapsed;
      var normalizedNewPath := env.lib.normalizePath(newPath);
      if normalizedNewPath == "" || env.lib.ignored(normalizedNewPath) { return false; }
      var index := FindBookIndexByPath(env.lib, oldKey);
      IndexByPath(env.lib, books, oldKey, index);
      if index >= |books| && bookId != "" {
        index := FindBookIndexByBookId(bookId);
        IndexById(books, bookId, index);
      }
      assert KnownBy(env.lib, books, oldKey, bookId, index);
      if index >= |books| { return false; }
      RelocateBook(env.lib, index, oldKey, normalizedNewPath, title, author, cover, bookId);
      MarkDirty();
      SavesWithoutFaults(storage.disk, env.faults);
      var saved := SaveToFile(env);
      return true;
    }

    method RelocateBook(lib: Library, index: nat, oldKey: string, normalizedNewPath: string, title: string, author: string,
                        cover: string, bookId: string)
      requires LedgerOk(readingDays, legacyReadingDays, books) && index < |books|
      modifies `books
      ensures LedgerOk(readingDays, legacyReadingDays, books)
      ensures books == old(books)[index := Moved(lib, old(books)[index], oldKey, normalizedNewPath, title, author, cover, bookId)]
    {
      hide LedgerOk, WithPath, WithId;
      var book := books[index];
      if bookId != "" { book := WithId(book, bookId); }
      book := WithPath(lib, book, oldKey);
      book := WithPath(lib, book, normalizedNewPath);
      book := book.(title := if title != "" then title else book.title, author := if author != "" then author else book.author,
                    coverBmpPath := if cover != "" then cover else book.coverBmpPath);
      assert book == Moved(lib, books[index], oldKey, normalizedNewPath, title, author, cover, bookId);
      MovedDays(lib, books[index], oldKey, normalizedNewPath, title, author, cover, bookId);
      SameDaysKeepLedger(readingDays, legacyReadingDays, books, index, book);
      books := books[index := book];
    }

    // ----- replacing the whole store -----

    // An explicit wipe: the one way, besides a load or an import, out of the load-failure latch.
    method Reset(env: Env)
      modifies `books, `legacyReadingDays, `readingDays, `sessionLog, `activeSession, `lastSessionSnapshot
      modifies `loadFailed, `summaryCache, `dirty, `lastSaveMs, storage
      ensures Valid()
      ensures books == [] && legacyReadingDays == [] && readingDays == [] && sessionLog == []
      ensures activeSession == NO_SESSION && lastSessionSnapshot == NO_SNAPSHOT && !loadFailed
      ensures storage.disk == if env.memoryOk then Last(SaveTrace(old(storage.disk), Contents(), env.faults)) else old(storage.disk)
      ensures dirty <==> !(env.memoryOk && SaveReturns(old(storage.disk), env.faults))
      ensures NoFaults(env.faults) ==> Synced()
    {
      hide LedgerOk, SummaryHolds, SaveTrace, SaveReturns, Document;
      books, legacyReadingDays, readingDays, sessionLog := [], [], [], [];
      activeSession, lastSessionSnapshot := NO_SESSION, NO_SNAPSHOT;
      loadFailed := false;
      NothingRecorded();
      MarkDirty();
      var saved := SaveToFile(env);
    }

    // Writes the store to any file, even while its own could not be loaded.
    method ExportToFile(env: Env, path: string, target: Storage<StatsDoc>) returns (ok: bool)
      modifies target
      ensures !PathUsable(Some(path)) ==> !ok && target.disk == old(target.disk)
      ensures PathUsable(Some(path)) ==>
                && ok == SaveReturns(old(target.disk), env.faults)
                && target.disk == Last(SaveTrace(old(target.disk), Contents(), env.faults))
    {
      hide SaveTrace, SaveReturns, Document, SaveSteps;
      if path == "" { return false; }
      var document := Document(books, legacyReadingDays, readingDays, sessionLog);
      ok := target.SaveJsonDocument(Some(path), document, env.faults);
    }

    // What load and import do with a parsed document.
    method AdoptDocument(lib: Library, doc: StatsDoc)
      modifies `books, `legacyReadingDays, `readingDays, `sessionLog, `activeSession, `lastSessionSnapshot, `sessionSerialCounter
      modifies `loadFailed, `dirty
      ensures LedgerOk(readingDays, legacyReadingDays, books)
      ensures books == StoredBooks(lib, doc) && LegacyOf(doc, legacyReadingDays)
      ensures sessionLog == Trimmed(if Version(doc) >= 4 then KeptSessions(doc.sessionLog) else [])
      ensures activeSession == NO_SESSION && lastSessionSnapshot == NO_SNAPSHOT && sessionSerialCounter == 0
      ensures !loadFailed && dirty == NeedsRewrite(doc)
    {
      hide LedgerOk, BooksOf, MergedBooks, NormalizedAll, Kept, KeptSessions, NeedsIds, DaysFit, NoDayZero, AllDaysOk;
      hide DaysOf, DocumentTime, LegacySource;
      var l := ReadDocument(doc);
      dirty := l.dirty;
      loadFailed := false;
      readingDays := NormalizeReadingDays(l.readingDays);
      legacyReadingDays := l.legacyReadingDays;
      books := NormalizeBooks(lib, l.books);
      StoredBooksDays(lib, doc);
      activeSession, lastSessionSnapshot, sessionSerialCounter := NO_SESSION, NO_SNAPSHOT, 0;
      sessionLog := l.sessionLog;
      if |sessionLog| > MAX_SESSION_LOG_ENTRIES {
        sessionLog := sessionLog[|sessionLog| - MAX_SESSION_LOG_ENTRIES..];
      }
      books := RemoveIgnored(lib, books);
      RebuildAggregatedReadingDays();
    }

    method RememberLatestTimestamp()
      modifies appState
      ensures appState.lastKnownValidTimestamp == Remembered(old(appState.lastKnownValidTimestamp), books)
    {
      var latestKnown := GetLatestKnownTimestamp(appState.lastKnownValidTimestamp, books);
      if !IsClockValid(appState.lastKnownValidTimestamp) && IsClockValid(latestKnown) {
        appState.lastKnownValidTimestamp := latestKnown;
      }
    }

    // Takes over another file's statistics and writes them to the store's own file.
    method ImportFromFile(env: Env, path: string, source: File<StatsDoc>) returns (ok: bool)
      requires Valid()
      modifies `books, `legacyReadingDays, `readingDays, `sessionLog, `activeSession, `lastSessionSnapshot, `sessionSerialCounter
      modifies `loadFailed, `summaryCache, `dirty, `lastSaveMs, storage, appState
      ensures Valid()
      ensures !(path != "" && source.Whole? && env.parseOk) ==>
                && !ok && books == old(books) && readingDays == old(readingDays) && activeSession == old(activeSession)
                && legacyReadingDays == old(legacyReadingDays) && sessionLog == old(sessionLog)
                && loadFailed == old(loadFailed) && dirty == old(dirty) && storage.disk == old(storage.disk)
                && appState.lastKnownValidTimestamp == old(appState.lastKnownValidTimestamp)
      ensures path != "" && source.Whole? && env.parseOk ==>
                && Adopted(env.lib, source.doc)
                && appState.lastKnownValidTimestamp == Remembered(old(appState.lastKnownValidTimestamp), books)
                && storage.disk == (if env.memoryOk then Last(SaveTrace(old(storage.disk), Contents(), env.faults)) else old(storage.disk))
                && ok == (env.memoryOk && SaveReturns(old(storage.disk), env.faults)) && dirty == !ok
                && (NoFaults(env.faults) ==> Synced())
    {
      hide LedgerOk, SummaryHolds, SaveTrace, SaveReturns, Document, StoredBooks, LegacyOf, Trimmed, NeedsRewrite, Remembered;
      if path == "" || source.Absent? { return false; }
      if !source.Whole? || !env.parseOk { return false; }
      AdoptDocument(env.lib, source.doc);
      RememberLatestTimestamp();
      MarkDirty();
      ok := SaveToFile(env);
    }

    // The store holds what the document says.
    ghost predicate Adopted(lib: Library, doc: StatsDoc)
      reads this
    {
      && books == StoredBooks(lib, doc) && LegacyOf(doc, legacyReadingDays)
      && sessionLog == Trimmed(if Version(doc) >= 4 then KeptSessions(doc.sessionLog) else [])
      && activeSession == NO_SESSION && lastSessionSnapshot == NO_SNAPSHOT && sessionSerialCounter == 0
      && !loadFailed
    }

    // The file as loadFromFile finds it, after recovering an interrupted save.
    method RecoverFile(env: Env)
      modifies storage
      ensures storage.disk == FoundDisk(old(storage.disk), env.faults)
    {
      storage.Recover(env.faults.renameFails);
    }

    // A file that exists but cannot be read latches the store: from then on it writes nothing.
    method LoadFromFile(env: Env) returns (ok: bool)
      requires Valid()
      modifies `books, `legacyReadingDays, `readingDays, `sessionLog, `activeSession, `lastSessionSnapshot, `sessionSerialCounter
      modifies `loadFailed, `summaryCache, `dirty, `lastSaveMs, storage, appState
      ensures Valid()
      ensures var found := FoundDisk(old(storage.disk), env.faults);
              && (ok <==> found.main.Whole? && env.parseOk)
              && (found.main.Absent? ==> loadFailed == old(loadFailed) && dirty == old(dirty) && storage.disk == found)
              && (!found.main.Absent? && !ok ==> loadFailed && storage.disk == found)
              && (!ok ==> books == old(books) && readingDays == old(readingDays) && activeSession == old(activeSession)
                          && legacyReadingDays == old(legacyReadingDays) && sessionLog == old(sessionLog)
                          && appState.lastKnownValidTimestamp == old(appState.lastKnownValidTimestamp))
              && (ok ==> appState.lastKnownValidTimestamp == Remembered(old(appState.lastKnownValidTimestamp), books))
              && (ok ==> Adopted(env.lib, found.main.doc) && SaveOutcome(found, storage.disk, Contents(), env.faults)
                         && (!NeedsRewrite(found.main.doc) ==> !dirty && storage.disk == found)
                         && (NeedsRewrite(found.main.doc) && env.memoryOk && NoFaults(env.faults) ==>
                               && !dirty && storage.disk.main == Whole(Contents())
                               && storage.disk == Last(SaveTrace(found, Contents(), env.faults))))
    {
      hide LedgerOk, SummaryHolds, SaveTrace, SaveReturns, Document, StoredBooks, LegacyOf, Trimmed, NeedsRewrite, Remembered;
      RecoverFile(env);
      if storage.disk.main.Absent? { return false; }
      if !storage.disk.main.Whole? || !env.parseOk {
        loadFailed := true;
        dirty := false;
        return false;
      }
      AdoptDocument(env.lib, storage.disk.main.doc);
      RememberLatestTimestamp();
      summaryCache := summaryCache.(valid := false);
      SavesWithoutFaults(storage.disk, env.faults);
      if dirty {
        MarkDirty();
        var saved := SaveToFile(env);
      } else {
        lastSaveMs := env.millis;
      }
      return true;
    }

    // Gives the memory back, unless that would drop unsaved reading.
    method ReleaseMemoryForNetwork(env: Env) returns (ok: bool)
      requires Valid()
      modifies `books, `legacyReadingDays, `readingDays, `sessionLog, `activeSession, `lastSessionSnapshot, `sessionSerialCounter
      modifies `summaryCache, `dirty, `lastSaveMs, storage
      ensures Valid() && !activeSession.active
      ensures loadFailed ==> storage.disk == old(storage.disk)
      ensures ok ==> books == [] && legacyReadingDays == [] && readingDays == [] && sessionLog == [] && !dirty
      ensures ok ==> sessionSerialCounter == 0
      ensures ok && !loadFailed && NoFaults(env.faults) && old(Synced()) ==>
                storage.disk.main
                == Whole(ContentsClosed(env, appState.lastKnownValidTimestamp, old(books), old(legacyReadingDays), old(readingDays),
                                        old(sessionLog), old(activeSession)))
      ensures ok && !old(activeSession).active && old(dirty) ==>
                && SaveReturns(old(storage.disk), env.faults)
                && storage.disk == Last(SaveTrace(old(storage.disk), old(Contents()), env.faults))
      ensures !ok ==> dirty
    {
      hide LedgerOk, SummaryHolds, SaveTrace, SaveReturns, Document, BooksRead, BooksEnded, DaysRead, LogEnded, SnapshotOf, CreditedMs;
      hide Elapsed, NoFaults, SaveOutcome, Last, Counted, SessionMs;
      if activeSession.active { EndSession(env); }
      if dirty {
        var saved := SaveToFile(env);
        if !saved { return false; }
      }
      Forget(env.millis);
      return true;
    }

    method Forget(nowMs: nat)
      modifies `books, `legacyReadingDays, `readingDays, `sessionLog, `activeSession, `lastSessionSnapshot, `sessionSerialCounter
      modifies `summaryCache, `dirty, `lastSaveMs
      ensures Valid() && !activeSession.active
      ensures books == [] && legacyReadingDays == [] && readingDays == [] && sessionLog == [] && !dirty
      ensures sessionSerialCounter == 0
    {
      hide LedgerOk, SummaryHolds;
      books, legacyReadingDays, readingDays, sessionLog := [], [], [], [];
      activeSession, lastSessionSnapshot, sessionSerialCounter := NO_SESSION, NO_SNAPSHOT, 0;
      summaryCache := summaryCache.(valid := false);
      dirty, lastSaveMs := false, nowMs;
      NothingRecorded();
    }

    method ReloadAfterNetwork(env: Env) returns (ok: bool)
      requires Valid()
      modifies `books, `legacyReadingDays, `readingDays, `sessionLog, `activeSession, `lastSessionSnapshot, `sessionSerialCounter
      modifies `loadFailed, `summaryCache, `dirty, `lastSaveMs, storage, appState
      ensures Valid()
      ensures old(storage.disk).main.Absent? ==>
                && ok && books == old(books) && readingDays == old(readingDays) && legacyReadingDays == old(legacyReadingDays)
                && activeSession == old(activeSession) && loadFailed == old(loadFailed) && dirty == old(dirty)
                && storage.disk == old(storage.disk)
                && appState.lastKnownValidTimestamp == old(appState.lastKnownValidTimestamp)
      ensures !old(storage.disk).main.Absent? ==>
                var found := old(storage.disk);
                && (ok <==> found.main.Whole? && env.parseOk)
                && (!ok ==> loadFailed && storage.disk == found)
                && (ok ==> Adopted(env.lib, found.main.doc) && SaveOutcome(found, storage.disk, Contents(), env.faults)
                           && appState.lastKnownValidTimestamp == Remembered(old(appState.lastKnownValidTimestamp), books)
                           && (!NeedsRewrite(found.main.doc) ==> !dirty && storage.disk == found)
                           && (NeedsRewrite(found.main.doc) && env.memoryOk && NoFaults(env.faults) ==>
                                 !dirty && storage.disk.main == Whole(Contents())))
    {
      hide LedgerOk, SummaryHolds, SaveTrace, SaveReturns, Document, Adopted, NeedsRewrite, SaveOutcome, Remembered, NoFaults;
      if storage.disk.main.Absent? { return true; }
      ok := LoadFromFile(env);
    }

    // ----- the summary -----

    method RebuildSummaryCache(env: Env)
      requires Valid()
      modifies `summaryCache
      ensures Valid() && summaryCache.valid && summaryCache.goalReadingMs == env.goalMs
      ensures summaryCache.referenceDayOrdinal == ReferenceDay(env, appState.lastKnownValidTimestamp, books, readingDays)
    {
      hide SummaryHolds, ReferenceDay;
      LedgerGives(readingDays, legacyReadingDays, books, 0);
      var referenceDay := GetReferenceDayOrdinal(env);
      if referenceDay == 0 { NoReferenceNoDays(env, appState.lastKnownValidTimestamp, books, readingDays); }
      summaryCache := BuildSummary(readingDays, books, referenceDay, env.goalMs);
    }

    // Rebuilds the cache unless it is valid for the goal, and for the reference day where that matters.
    method RefreshSummary(env: Env, dayMatters: bool)
      requires Valid()
      modifies `summaryCache
      ensures Valid() && summaryCache.valid && summaryCache.goalReadingMs == env.goalMs
      ensures dayMatters ==>
                summaryCache.referenceDayOrdinal == ReferenceDay(env, appState.lastKnownValidTimestamp, books, readingDays)
    {
      hide SummaryHolds, ReferenceDay, LedgerOk;
      var stale := !summaryCache.valid || summaryCache.goalReadingMs != env.goalMs;
      if dayMatters && !stale {
        var referenceDay := GetReferenceDayOrdinal(env);
        stale := summaryCache.referenceDayOrdinal != referenceDay;
      }
      if stale { RebuildSummaryCache(env); }
    }

    method GetBooksFinishedCount(env: Env) returns (count: nat)
      requires Valid()
      modifies `summaryCache
      ensures Valid() && count == Finished(books)
    {
      hide LedgerOk, DayFiguresHold;
      RefreshSummary(env, false);
      return summaryCache.booksFinishedCount;
    }

    method GetTotalReadingMs(env: Env) returns (ms: nat)
      requires Valid()
      modifies `summaryCache
      ensures Valid() && ms == TotalTime(books)
    {
      hide LedgerOk, DayFiguresHold;
      RefreshSummary(env, false);
      return summaryCache.totalReadingMs;
    }

    method GetTodayReadingMs(env: Env) returns (ms: nat)
      requires Valid()
      modifies `summaryCache
      ensures Valid()
      ensures ms == DayTotal(readingDays, ReferenceDay(env, appState.lastKnownValidTimestamp, books, readingDays))
    {
      hide LedgerOk, ReferenceDay, RecentTime, GoalMetDays, IsLongestRun, IsCurrentStreak;
      RefreshSummary(env, true);
      return summaryCache.todayReadingMs;
    }

    // The last days, in windows of 7, 30 or exactly as many as asked for.
    method GetRecentReadingMs(env: Env, days: nat) returns (ms: nat)
      requires Valid()
      modifies `summaryCache
      ensures Valid()
      ensures ms == if days == 0 then 0
                    else RecentTime(readingDays, ReferenceDay(env, appState.lastKnownValidTimestamp, books, readingDays),
                                    if days <= 7 then 7 else if days <= 30 then 30 else days)
    {
      hide LedgerOk, ReferenceDay, SpanTotal, GoalMetDays, IsLongestRun, IsCurrentStreak;
      if days == 0 { return 0; }
      RefreshSummary(env, true);
      if days <= 7 { return summaryCache.recent7ReadingMs; }
      if days <= 30 { return summaryCache.recent30ReadingMs; }
      if readingDays == [] || summaryCache.referenceDayOrdinal == 0 {
        SpanOfNothing(WindowStart(summaryCache.referenceDayOrdinal, days), summaryCache.referenceDayOrdinal);
        return 0;
      }
      var startDay := if summaryCache.referenceDayOrdinal >= days - 1 then summaryCache.referenceDayOrdinal - (days - 1) else 0;
      ms := SumSpan(readingDays, startDay, summaryCache.referenceDayOrdinal);
    }

    method GetCurrentStreakDays(env: Env) returns (streak: nat)
      requires Valid()
      modifies `summaryCache
      ensures Valid()
      ensures IsCurrentStreak(GoalMetDays(readingDays, env.goalMs),
                              ReferenceDay(env, appState.lastKnownValidTimestamp, books, readingDays), streak)
    {
      hide LedgerOk, ReferenceDay, RecentTime, GoalMetDays, IsLongestRun, IsCurrentStreak;
      RefreshSummary(env, true);
      return summaryCache.currentStreakDays;
    }

    // The reference day is not compared here; the cached value is right for any of them.
    method GetMaxStreakDays(env: Env) returns (streak: nat)
      requires Valid()
      modifies `summaryCache
      ensures Valid()
      ensures IsLongestRun(GoalMetDays(readingDays, env.goalMs), streak)
    {
      hide LedgerOk, RecentTime, GoalMetDays, IsLongestRun, IsCurrentStreak;
      RefreshSummary(env, false);
      return summaryCache.maxStreakDays;
    }
  }
}
