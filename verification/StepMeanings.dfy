// What the steps of the reading-statistics store mean for whoever calls it: which book a call finds, how
// much time it credits, what a session leaves behind, and when a save is due (src/ReadingStatsStore.cpp).
module StepMeanings {
  import opened Wrappers
  import opened ReadingDays
  import opened Books
  import opened MergedFigures
  import opened CopyMerging
  import opened Ledger
  import opened Clock
  import opened StatsDocument
  import opened SaveProtocol
  import opened StoreSteps

  // ----- which book a call finds -----

  // The path a book is at finds it, and so does every path it was known by; no other does, and an empty
  // one finds nothing.
  lemma FoundByItsPaths(lib: Library, b: Book, path: string)
    ensures var p := lib.normalizePath(path);
            && (path != "" && p != "" && KnowsPath(b, p) ==> MatchesPath(lib, b, path))
            && (path != "" && p == b.path ==> MatchesPath(lib, b, path))
            && (MatchesPath(lib, b, path) ==> path != "" && KnowsPath(b, p))
            && (MatchesPath(lib, b, path) && p == "" ==> b.path == "")
  {
  }

  lemma FoundByItsId(b: Book, bookId: string)
    ensures MatchesId(b, bookId) ==> bookId != "" && bookId == b.bookId
    ensures b.bookId != "" ==> MatchesId(b, b.bookId)
  {
  }

  // After normalizeBooks whatever path a copy had leads to the one book left of it.
  lemma CopiesAreFound(lib: Library, books: seq<Book>, k: nat, j: nat, path: string)
    requires k < |MergedBooks(lib, NormalizedAll(lib, books))| && path != "" && lib.normalizePath(path) != ""
    requires var b := MergedBooks(lib, NormalizedAll(lib, books))[k];
             var copies := CopiesOf(NormalizedAll(lib, books), b.bookId);
             b.bookId != "" && j < |copies| && (lib.normalizePath(path) in copies[j].knownPaths
                                                || (j > 0 && copies[j].path == lib.normalizePath(path)))
    ensures MatchesPath(lib, MergedBooks(lib, NormalizedAll(lib, books))[k], path)
  {
    hide MergedBooks, NormalizedAll, CopiesOf, MergeAll;
    var normalized := NormalizedAll(lib, books);
    var b := MergedBooks(lib, normalized)[k];
    SurvivorMergesCopies(lib, normalized, k);
    PathsSurvive(lib, CopiesOf(normalized, b.bookId), lib.normalizePath(path));
    assert KnowsPath(CopiesOf(normalized, b.bookId)[j], lib.normalizePath(path));
  }

  // A book is passed over as a candidate for any one of four reasons and for no other.
  lemma PassedOver(lib: Library, b: Book, path: string, title: string, author: string)
    ensures LegacyCandidate(lib, b, path, title, author)
       <==> !(|| (!IsLegacyBookId(b.bookId) && lib.exists_(b.path))
              || (title == "" || b.title == "" || b.title != title)
              || (author != "" && b.author != "" && b.author != author)
              || (lib.extension(path) != "" && lib.extension(b.path) != lib.extension(path)))
  {
  }

  // ----- what opening and moving do to a book -----

  // Texts that are given replace those on record, each its own.
  ghost predicate Renamed(before: Book, after: Book, title: string, author: string, cover: string) {
    && (title != "" ==> after.title == title) && (title == "" ==> after.title == before.title)
    && (author != "" ==> after.author == author) && (author == "" ==> after.author == before.author)
    && (cover != "" ==> after.coverBmpPath == cover) && (cover == "" ==> after.coverBmpPath == before.coverBmpPath)
  }

  // An id is kept for good, except that a legacy one gives way to a proper one.
  ghost predicate IdKept(before: string, after: string, offered: string) {
    && (before != "" && !("legacy:" <= before) ==> after == before)
    && ("legacy:" <= before && "legacy:" <= offered ==> after == before)
    && ("legacy:" <= before && !("legacy:" <= offered) ==> after == offered)
    && (before == "" ==> after == offered)
  }

  lemma OpeningMeans(lib: Library, b: Book, path: string, title: string, author: string, cover: string, id: string)
    ensures var m := Identified(lib, b, path, title, author, cover, id);
            Renamed(b, m, title, author, cover) && IdKept(b.bookId, m.bookId, id)
  {
    hide Deduped;
  }

  lemma MovingMeans(lib: Library, b: Book, oldKey: string, newPath: string, title: string, author: string, cover: string, id: string)
    ensures var m := Moved(lib, b, oldKey, newPath, title, author, cover, id);
            Renamed(b, m, title, author, cover) && (if id == "" then m.bookId == b.bookId else IdKept(b.bookId, m.bookId, id))
  {
    hide Deduped;
  }

  // So it is when two copies of a book are merged.
  lemma MergingKeepsId(lib: Library, p: Book, d: Book)
    ensures IdKept(p.bookId, Merge(lib, p, d).bookId, d.bookId)
  {
    hide Deduped, Normalized;
  }

  lemma DescribingMeans(b: Book, title: string, author: string, cover: string)
    ensures var m := Described(b, title, author, cover);
            Renamed(b, m, title, author, cover) && m.bookId == b.bookId && m.path == b.path && m.knownPaths == b.knownPaths
            && SameRecord(m, b)
  {
  }

  // A new book is found under its path and has nothing on record.
  lemma NewBookMeans(lib: Library, path: string, title: string, author: string, cover: string, id: string, x: string)
    ensures var b := NewBook(path, title, author, cover, id);
            && b.bookId == id && b.path == path && Renamed(b, b, title, author, cover)
            && (x in b.knownPaths <==> x == path != "")
            && b.readingDays == [] && b.totalReadingMs == b.sessions == b.lastSessionMs == 0
            && b.firstReadAt == b.lastReadAt == b.completedAt == 0
            && b.lastProgressPercent == b.chapterProgressPercent == 0 && b.chapterTitle == "" && !b.completed
    ensures path != "" && lib.normalizePath(path) == path ==> MatchesPath(lib, NewBook(path, title, author, cover, id), path)
  {
  }

  // The id preferred, or else the one the path has in the library.
  lemma ResolvedMeans(lib: Library, path: string, preferred: string)
    ensures preferred != "" ==> ResolvedId(lib, path, preferred) == preferred
    ensures ResolvedId(lib, path, "") == lib.resolveStableBookId(lib.normalizePath(path))
  {
  }

  // Where a path and its normal form have the same id, opening the path works with that id.
  lemma SessionIdMeans(lib: Library, path: string)
    requires lib.resolveStableBookId(lib.normalizePath(path)) == lib.resolveStableBookId(path)
    ensures SessionId(lib, path) == lib.resolveStableBookId(path)
  {
  }

  // Progress is a percentage, and a book is completed when it reaches 100.
  lemma ProgressMeans(b: Book, progress: nat, completed: bool, chapter: string, chapterProgress: nat)
    ensures var m := WithProgress(b, progress, completed, chapter, chapterProgress);
            && m.lastProgressPercent <= 100 && (progress <= 100 ==> m.lastProgressPercent == progress)
            && (progress >= 100 ==> m.lastProgressPercent == 100)
            && m.chapterProgressPercent <= 100 && (chapterProgress <= 100 ==> m.chapterProgressPercent == chapterProgress)
            && (chapterProgress >= 100 ==> m.chapterProgressPercent == 100)
            && m.chapterTitle == chapter
            && (m.completed <==> b.completed || completed || progress >= 100)
  {
  }

  // The set clock dates a change of progress, and the completion that comes with it unless there is a date.
  lemma ProgressIsDated(env: Env, last: nat, books: seq<Book>, index: nat,
                        progress: nat, completed: bool, chapter: string, chapterProgress: nat)
    requires index < |books| && IsClockValid(env.authoritative)
    requires WithProgress(books[index], progress, completed, chapter, chapterProgress) != books[index]
    ensures var b, r := books[index], BooksProgressed(env, last, books, index, progress, completed, chapter, chapterProgress)[index];
            && r.lastReadAt == env.authoritative
            && (b.firstReadAt == 0 ==> r.firstReadAt == env.authoritative)
            && (r.completed && !b.completed && b.completedAt == 0 ==> r.completedAt == env.authoritative)
            && (b.completedAt != 0 || b.completed ==> r.completedAt == b.completedAt)
  {
    hide LatestKnown;
  }

  // Without a set clock the date is the one the store knows best, and the book's own only as a last resort.
  lemma ProgressWithoutClock(env: Env, last: nat, books: seq<Book>, index: nat,
                             progress: nat, completed: bool, chapter: string, chapterProgress: nat)
    requires index < |books| && !IsClockValid(env.authoritative)
    requires WithProgress(books[index], progress, completed, chapter, chapterProgress) != books[index]
    ensures var b, r := books[index], BooksProgressed(env, last, books, index, progress, completed, chapter, chapterProgress)[index];
            && (IsClockValid(last) ==> r.lastReadAt == last)
            && (!IsClockValid(last) ==> r.lastReadAt >= b.lastReadAt)
            && (r.completed && !b.completed && b.completedAt == 0 ==> r.completedAt == r.lastReadAt)
  {
    var b1 := WithProgress(books[index], progress, completed, chapter, chapterProgress);
    LatestCoversBook(last, books[index := b1], index);
    assert b1.lastReadAt in [b1.lastReadAt, b1.completedAt, b1.firstReadAt];
  }

  // Reading is dated by the clock when it is set, and otherwise in the same order.
  lemma ReadingIsDated(env: Env, last: nat, books: seq<Book>, s: Session)
    requires s.bookIndex < |books|
    ensures var t := ReferenceFor(env, last, books, s);
            && (IsClockValid(env.authoritative) ==> t == env.authoritative)
            && (!IsClockValid(env.authoritative) && IsClockValid(last) ==> t == last)
            && (!IsClockValid(env.authoritative) && !IsClockValid(last) ==> t == 0 || t >= books[s.bookIndex].lastReadAt)
  {
    var b := books[s.bookIndex];
    LatestCoversBook(last, books, s.bookIndex);
    assert b.lastReadAt in [b.lastReadAt, b.completedAt, b.firstReadAt];
  }

  // ----- how much time a call credits -----

  // Between two interactions less than 2^32 ms apart the time credited is the real gap, up to half an hour,
  // however often the tick counter has wrapped.
  lemma GapIsCredited(env: Env, s: Session, realNow: nat, realSince: nat)
    requires realSince <= realNow < realSince + TICK_RANGE
    requires env.millis == realNow % TICK_RANGE && s.lastInteractionMs == realSince % TICK_RANGE
    ensures realNow - realSince <= 1800000 ==> CreditedMs(env, s) == realNow - realSince
    ensures realNow - realSince >= 1800000 ==> CreditedMs(env, s) == 1800000
  {
    ElapsedIsExact(realNow, realSince);
  }

  // The reference day is that of a valid clock; without one the last day on record; 0 if there is none.
  lemma ReferenceDayMeans(env: Env, last: nat, books: seq<Book>, days: seq<DayStats>)
    ensures var t := ReferenceTimestamp(last, books, env.authoritative, 0);
            && (IsClockValid(t) ==> ReferenceDay(env, last, books, days) == LocalDay(t, env.offsetQ))
            && (!IsClockValid(t) && days != [] ==> ReferenceDay(env, last, books, days) == days[|days| - 1].dayOrdinal)
            && (!IsClockValid(t) && days == [] ==> ReferenceDay(env, last, books, days) == 0)
  {
    hide ReferenceTimestamp, LocalDay;
  }

  // ----- what a session leaves behind -----

  // A session of three minutes or more is one more session of its book, and its last one.
  lemma EndMeans(books: seq<Book>, s: Session, k: nat)
    requires s.bookIndex < |books| && k < |books|
    ensures var b, r := books[k], BooksEnded(books, s)[k];
            if k == s.bookIndex && s.accumulatedMs >= 180000
            then r.sessions == b.sessions + 1 && r.lastSessionMs == SessionMs(s)
                 && r.(sessions := b.sessions, lastSessionMs := b.lastSessionMs) == b
            else r == b
    ensures s.accumulatedMs < 0x1_0000_0000 ==> SessionMs(s) == s.accumulatedMs
    ensures s.accumulatedMs >= 0x1_0000_0000 ==> SessionMs(s) == 0xFFFF_FFFF
    ensures Counted(s) <==> s.accumulatedMs >= 180000
  {
  }

  function Latest256(log: seq<SessionEntry>): seq<SessionEntry> {
    log[if |log| <= 256 then 0 else |log| - 256..]
  }

  // The log holds the latest 256 of all entries with a day and a time; trimming keeps as many.
  lemma LogKeepsLatest(all: seq<SessionEntry>, dayOrdinal: nat, sessionMs: nat)
    ensures Logged(Latest256(all), dayOrdinal, sessionMs)
         == if dayOrdinal > 0 && sessionMs > 0 then Latest256(all + [SessionEntry(dayOrdinal, sessionMs)]) else Latest256(all)
    ensures Trimmed(all) == Latest256(all)
  {
  }

  // A session that counts is logged on the day of its reference time, and no other is.
  lemma EndIsLogged(env: Env, last: nat, books: seq<Book>, s: Session, log: seq<SessionEntry>)
    requires s.bookIndex < |books| && |log| <= MAX_SESSION_LOG_ENTRIES
    ensures var t := ReferenceTimestamp(last, BooksEnded(books, s), env.authoritative, books[s.bookIndex].lastReadAt);
            && (s.accumulatedMs < 180000 || !IsClockValid(t) ==> LogEnded(env, last, books, s, log) == log)
            && (s.accumulatedMs >= 180000 && IsClockValid(t) ==>
                  LogEnded(env, last, books, s, log) == Latest256(log + [SessionEntry(LocalDay(t, env.offsetQ), SessionMs(s))]))
  {
    hide ReferenceTimestamp, LocalDay, BooksEnded;
    var t := ReferenceTimestamp(last, BooksEnded(books, s), env.authoritative, books[s.bookIndex].lastReadAt);
    ValidDaysAreNotZero(t, env.offsetQ);
    assert Latest256(log) == log;
    LogKeepsLatest(log, LocalDay(t, env.offsetQ), SessionMs(s));
  }

  // The snapshot tells book, time and progress; a book is completed by a session that it was not before.
  lemma SnapshotMeans(b: Book, s: Session, serial: nat)
    ensures var t := SnapshotOf(b, s, serial);
            && t.valid && t.serial == serial && t.bookId == b.bookId && t.path == b.path
            && (s.accumulatedMs < 0x1_0000_0000 ==> t.sessionMs == s.accumulatedMs)
            && (t.counted <==> s.accumulatedMs >= 180000)
            && (t.completedThisSession <==> b.completed && !s.startCompleted)
            && t.startProgressPercent == s.startProgressPercent && t.endProgressPercent == b.lastProgressPercent
  {
  }

  // Closing an open session credits the last gap to the session, its book and the day, and counts the session
  // if it then has three minutes.
  lemma ClosingMeans(env: Env, last: nat, books: seq<Book>, s: Session, days: seq<DayStats>, log: seq<SessionEntry>, d: nat)
    requires s.active && s.bookIndex < |books| && |log| <= MAX_SESSION_LOG_ENTRIES
    ensures var closed, b, ms := SessionClosed(env, s), BooksClosed(env, last, books, s)[s.bookIndex], CreditedMs(env, s);
            && closed.accumulatedMs == s.accumulatedMs + ms && closed.lastInteractionMs == env.millis
            && closed.(accumulatedMs := s.accumulatedMs, lastInteractionMs := s.lastInteractionMs) == s
            && b.totalReadingMs == books[s.bookIndex].totalReadingMs + ms
            && b.sessions == books[s.bookIndex].sessions + (if s.accumulatedMs + ms >= 180000 then 1 else 0)
            && DayTotal(DaysClosed(env, last, books, s, days), d) - DayTotal(days, d)
               == DayTotal(b.readingDays, d) - DayTotal(books[s.bookIndex].readingDays, d)
            && (s.accumulatedMs + ms < 180000 ==> LogClosed(env, last, books, s, log) == log)
            && (s.accumulatedMs + ms >= 180000 && IsClockValid(env.authoritative) ==>
                  LogClosed(env, last, books, s, log)
                  == Latest256(log + [SessionEntry(LocalDay(env.authoritative, env.offsetQ), SessionMs(closed))]))
  {
    hide LocalDay, ReferenceTimestamp, Upsert, LogEnded, Latest256;
    var ms, reference := CreditedMs(env, s), ReferenceFor(env, last, books, s);
    UpsertTotal(days, LocalDay(reference, env.offsetQ), ms, d);
    UpsertTotal(books[s.bookIndex].readingDays, LocalDay(reference, env.offsetQ), ms, d);
    EndIsLogged(env, last, BooksRead(env, last, books, s), SessionClosed(env, s), log);
  }

  // Without an open session there is nothing to close.
  lemma NothingToClose(env: Env, last: nat, books: seq<Book>, legacy: seq<DayStats>, days: seq<DayStats>,
                       log: seq<SessionEntry>, s: Session)
    requires !s.active && |log| <= MAX_SESSION_LOG_ENTRIES
    ensures BooksClosed(env, last, books, s) == books && DaysClosed(env, last, books, s, days) == days
            && LogClosed(env, last, books, s, log) == log
    ensures ContentsClosed(env, last, books, legacy, days, log, s) == Document(books, legacy, days, log)
  {
  }

  // ----- editing the ledger -----

  // An adjustment is refused exactly when the day or the book would be left with less than nothing.
  lemma RefusedAdjustment(b: Book, dayOrdinal: nat, deltaMs: int)
    ensures !Covers(b, dayOrdinal, deltaMs)
       <==> deltaMs < 0 && (DayTotal(b.readingDays, dayOrdinal) + deltaMs < 0 || b.totalReadingMs + deltaMs < 0)
  {
  }

  // One that is not changes the time of the day and of the book by just as much.
  lemma AdjustedByDelta(b: Book, dayOrdinal: nat, deltaMs: int, d: nat)
    requires Covers(b, dayOrdinal, deltaMs) && Sorted(b.readingDays)
    ensures var a := Adjusted(b, dayOrdinal, deltaMs);
            && a.totalReadingMs == b.totalReadingMs + deltaMs
            && DayTotal(a.readingDays, d) == DayTotal(b.readingDays, d) + (if d == dayOrdinal then deltaMs else 0)
            && a.(totalReadingMs := b.totalReadingMs, readingDays := b.readingDays) == b
  {
    hide DayTotal, Upsert, Reduced, Sorted;
    if deltaMs > 0 {
      UpsertTotal(b.readingDays, dayOrdinal, deltaMs, d);
    } else {
      ReducedTotal(b.readingDays, dayOrdinal, -deltaMs, d);
    }
  }

  // So it can always be taken back, which leaves every day with the time it had.
  lemma AdjustmentUndone(b: Book, dayOrdinal: nat, deltaMs: int, d: nat)
    requires Covers(b, dayOrdinal, deltaMs) && DaysFit(b.readingDays) && dayOrdinal != 0
    ensures var a := Adjusted(b, dayOrdinal, deltaMs);
            && Covers(a, dayOrdinal, -deltaMs)
            && Adjusted(a, dayOrdinal, -deltaMs).totalReadingMs == b.totalReadingMs
            && DayTotal(Adjusted(a, dayOrdinal, -deltaMs).readingDays, d) == DayTotal(b.readingDays, d)
  {
    hide Adjusted;
    var a := Adjusted(b, dayOrdinal, deltaMs);
    AdjustedByDelta(b, dayOrdinal, deltaMs, dayOrdinal);
    AdjustedByDelta(b, dayOrdinal, deltaMs, d);
    AdjustedFits(b, dayOrdinal, deltaMs);
    AdjustedByDelta(a, dayOrdinal, -deltaMs, d);
  }

  lemma AdjustedFits(b: Book, dayOrdinal: nat, deltaMs: int)
    requires Covers(b, dayOrdinal, deltaMs) && DaysFit(b.readingDays) && dayOrdinal != 0
    ensures DaysFit(Adjusted(b, dayOrdinal, deltaMs).readingDays)
  {
    hide DaysFit;
    if deltaMs > 0 {
      UpsertFits(b.readingDays, dayOrdinal, deltaMs);
    } else {
      ReducedFits(b.readingDays, dayOrdinal, -deltaMs);
    }
  }

  // ----- saving and loading -----

  // While reading, a save is due when there has been none or the last is at least 30 seconds old.
  lemma SaveIsDue(env: Env, realNow: nat, realSince: nat)
    requires realSince <= realNow < realSince + TICK_RANGE && env.millis == realNow % TICK_RANGE
    ensures Due(env, realSince % TICK_RANGE) <==> realSince % TICK_RANGE == 0 || realNow - realSince >= 30000
  {
    ElapsedIsExact(realNow, realSince);
  }

  // Without a session a save is left out exactly when the store is clean and its file there; during one
  // also unless there are changes and a save is due.
  lemma SkippedExactly(env: Env, dirty: bool, lastSaveMs: nat, d: Disk<StatsDoc>)
    ensures SaveSkipped(env, dirty, false, lastSaveMs, d) <==> !dirty && !d.main.Absent?
    ensures SaveSkipped(env, true, true, lastSaveMs, d) <==> !Due(env, lastSaveMs)
    ensures SaveSkipped(env, false, true, lastSaveMs, d)
  {
  }

  // A save that is left out succeeds; any other fails when latched or short of memory, and otherwise does
  // what the file system lets it.
  lemma SaveResult(env: Env, dirty: bool, active: bool, lastSaveMs: nat, loadFailed: bool, d: Disk<StatsDoc>)
    ensures SaveSkipped(env, dirty, active, lastSaveMs, d) ==> SaveOk(env, dirty, active, lastSaveMs, loadFailed, d)
    ensures !SaveSkipped(env, dirty, active, lastSaveMs, d) && (loadFailed || !env.memoryOk) ==>
              !SaveOk(env, dirty, active, lastSaveMs, loadFailed, d)
    ensures !SaveSkipped(env, dirty, active, lastSaveMs, d) && !loadFailed && env.memoryOk ==>
              (SaveOk(env, dirty, active, lastSaveMs, loadFailed, d) <==> SaveReturns(d, env.faults))
    ensures CanSave(env, loadFailed) ==> SaveOk(env, dirty, active, lastSaveMs, loadFailed, d)
  {
    hide SaveSkipped;
  }

  // A file is written back after loading exactly when its format is older than 6 or a book it names has no id.
  lemma RewrittenWhen(doc: StatsDoc)
    ensures NeedsRewrite(doc) <==> Version(doc) <= 5 || exists b :: b in BooksOf(Version(doc), doc.books) && b.bookId == ""
  {
    hide BooksOf, NeedsIds;
    NeedsIdsExact(Version(doc), doc.books);
  }

  // A valid time last known is kept; any other gives way to a valid time among the books.
  lemma RememberedMeans(last: nat, books: seq<Book>)
    ensures IsClockValid(last) ==> Remembered(last, books) == last
    ensures !IsClockValid(last) && IsClockValid(LatestKnown(last, books)) ==> Remembered(last, books) == LatestKnown(last, books)
    ensures IsClockValid(Remembered(last, books)) <==> IsClockValid(LatestKnown(last, books)) || IsClockValid(last)
  {
  }
}
