// What each call of the reading-statistics store does to the values it holds
// (src/ReadingStatsStore.cpp), and what those steps keep.
module StoreSteps {
  import opened Wrappers
  import opened ReadingDays
  import opened Books
  import opened Ledger
  import opened Clock
  import opened Streaks
  import opened Summary
  import opened StatsDocument
  import opened SaveProtocol

  const MAX_READING_GAP_MS := 1800000
  const SESSION_HEARTBEAT_MS := 60000
  const DEFERRED_SAVE_INTERVAL_MS := 30000
  const MIN_SESSION_READING_MS := 180000
  const MAX_SESSION_LOG_ENTRIES := 256
  const UINT32_MAX := 0xFFFF_FFFF
  const STATS_PATH: Option<string> := Some("/.crosspoint/reading_stats.json")

  // What the surroundings answer during one call: the tick counter, the clock (0 when it is not
  // set), the settings, whether the heap allows a save and a parse, and the file system's faults.
  datatype Env = Env(millis: nat, authoritative: nat, offsetQ: nat, goalMs: nat,
                     memoryOk: bool, parseOk: bool, faults: Faults, lib: Library)

  datatype Session = Session(active: bool, bookIndex: nat, lastInteractionMs: nat, accumulatedMs: nat,
                             startProgressPercent: nat, startCompleted: bool)

  const NO_SESSION := Session(false, 0, 0, 0, 0, false)

  datatype Snapshot = Snapshot(valid: bool, serial: nat, bookId: string, path: string, sessionMs: nat, counted: bool,
                               completedThisSession: bool, startProgressPercent: nat, endProgressPercent: nat)

  const NO_SNAPSHOT := Snapshot(false, 0, "", "", 0, false, false, 0, 0)

  class AppState {
    var lastKnownValidTimestamp: nat
    constructor () { lastKnownValidTimestamp := 0; }
  }

  function ClampPercent(percent: nat): nat {
    if percent < 100 then percent else 100
  }

  // ----- looking books up -----

  predicate MatchesPath(lib: Library, b: Book, path: string) {
    path != ""
    && var normalized := lib.normalizePath(path);
       b.path == normalized || (normalized != "" && normalized in b.knownPaths)
  }

  ghost predicate FirstByPath(lib: Library, books: seq<Book>, path: string, index: nat) {
    && index <= |books|
    && (forall k :: 0 <= k < index ==> !MatchesPath(lib, books[k], path))
    && (index < |books| ==> MatchesPath(lib, books[index], path))
  }

  predicate MatchesId(b: Book, bookId: string) {
    bookId != "" && b.bookId == bookId
  }

  ghost predicate FirstById(books: seq<Book>, bookId: string, index: nat) {
    && index <= |books|
    && (forall k :: 0 <= k < index ==> !MatchesId(books[k], bookId))
    && (index < |books| ==> MatchesId(books[index], bookId))
  }

  // A book that may be the moved or re-identified form of the one being opened.
  predicate LegacyCandidate(lib: Library, b: Book, path: string, title: string, author: string) {
    && (IsLegacyBookId(b.bookId) || !lib.exists_(b.path))
    && title != "" && b.title == title
    && (author == "" || b.author == "" || b.author == author)
    && (lib.extension(path) == "" || lib.extension(b.path) == lib.extension(path))
  }

  // The only candidate; two candidates are as good as none.
  ghost predicate SoleCandidate(lib: Library, books: seq<Book>, path: string, title: string, author: string, index: nat) {
    if index < |books| then
      forall k :: 0 <= k < |books| ==> (LegacyCandidate(lib, books[k], path, title, author) <==> k == index)
    else
      && index == |books|
      && ((forall k :: 0 <= k < |books| ==> !LegacyCandidate(lib, books[k], path, title, author))
          || exists j, k :: 0 <= j < k < |books| && LegacyCandidate(lib, books[j], path, title, author)
                            && LegacyCandidate(lib, books[k], path, title, author))
  }

  // The book meant by a path with an id and a title: known by path, else by id, else by candidacy.
  ghost predicate Denotes(lib: Library, books: seq<Book>, path: string, title: string, author: string, id: string, index: nat) {
    || (index < |books| && FirstByPath(lib, books, path, index))
    || (FirstByPath(lib, books, path, |books|)
        && ((index < |books| && FirstById(books, id, index))
            || (FirstById(books, id, |books|) && SoleCandidate(lib, books, path, title, author, index))))
  }

  // ----- what one call does to a book -----

  function OrElse(text: string, otherwise: string): string {
    if text == "" then otherwise else text
  }

  function WithId(b: Book, id: string): Book {
    if b.bookId == "" || (IsLegacyBookId(b.bookId) && !IsLegacyBookId(id)) then b.(bookId := id) else b
  }

  function NewBook(path: string, title: string, author: string, cover: string, id: string): Book {
    Book(id, path, if path != "" then [path] else [], title, author, cover, "", [], 0, 0, 0, 0, 0, 0, 0, 0, false)
  }

  function Identified(lib: Library, b: Book, path: string, title: string, author: string, cover: string, id: string): Book {
    var b1 := WithPath(lib, WithId(b, id), path);
    b1.(title := OrElse(title, b1.title), author := OrElse(author, b1.author), coverBmpPath := OrElse(cover, b1.coverBmpPath))
  }

  // updateBookReadTimestamp, for the reference timestamp it determines.
  function Stamped(b: Book, reference: nat): Book {
    if !IsClockValid(reference) then b
    else b.(firstReadAt := if b.firstReadAt == 0 then reference else b.firstReadAt, lastReadAt := reference)
  }

  // A valid time is that of the last reading, and of the first if there was none; nothing else changes.
  lemma StampedMeans(b: Book, reference: nat)
    ensures var s := Stamped(b, reference);
            && (!IsClockValid(reference) ==> s == b)
            && (IsClockValid(reference) ==> s.lastReadAt == reference)
            && (IsClockValid(reference) && b.firstReadAt == 0 ==> s.firstReadAt == reference)
            && (b.firstReadAt != 0 ==> s.firstReadAt == b.firstReadAt)
            && s.(firstReadAt := b.firstReadAt, lastReadAt := b.lastReadAt) == b
  {
  }

  // noteActivity on the book of the session.
  function Read(b: Book, ms: nat, reference: nat, offsetQ: nat): Book {
    var b1 := b.(totalReadingMs := b.totalReadingMs + ms);
    Stamped(if IsClockValid(reference)
            then b1.(readingDays := Upsert(b1.readingDays, LocalDay(reference, offsetQ), ms)) else b1, reference)
  }

  function CreditedMs(env: Env, s: Session): nat {
    var elapsed := Elapsed(env.millis, s.lastInteractionMs);
    if elapsed < MAX_READING_GAP_MS then elapsed else MAX_READING_GAP_MS
  }

  function ReferenceFor(env: Env, last: nat, books: seq<Book>, s: Session): nat
    requires s.bookIndex < |books|
  {
    ReferenceTimestamp(last, books, env.authoritative, books[s.bookIndex].lastReadAt)
  }

  // The books after noteActivity.
  function BooksRead(env: Env, last: nat, books: seq<Book>, s: Session): (r: seq<Book>)
    requires s.bookIndex < |books|
    ensures |r| == |books|
  {
    var ms := CreditedMs(env, s);
    if ms == 0 then books
    else books[s.bookIndex := Read(books[s.bookIndex], ms, ReferenceFor(env, last, books, s), env.offsetQ)]
  }

  // The aggregate after noteActivity: without any valid clock the time belongs to no day.
  function DaysRead(env: Env, last: nat, books: seq<Book>, s: Session, days: seq<DayStats>): seq<DayStats>
    requires s.bookIndex < |books|
  {
    var ms, reference := CreditedMs(env, s), ReferenceFor(env, last, books, s);
    if ms == 0 || !IsClockValid(reference) then days else Upsert(days, LocalDay(reference, env.offsetQ), ms)
  }

  lemma ReadKeepsLedger(env: Env, last: nat, books: seq<Book>, s: Session, days: seq<DayStats>, legacy: seq<DayStats>)
    requires s.bookIndex < |books| && LedgerOk(days, legacy, books)
    ensures LedgerOk(DaysRead(env, last, books, s, days), legacy, BooksRead(env, last, books, s))
  {
    hide LedgerOk, Upsert, LocalDay;
    var ms, reference := CreditedMs(env, s), ReferenceFor(env, last, books, s);
    var b := Read(books[s.bookIndex], ms, reference, env.offsetQ);
    if ms > 0 {
      if IsClockValid(reference) {
        ValidDaysAreNotZero(reference, env.offsetQ);
        CreditKeepsLedger(days, legacy, books, s.bookIndex, b, LocalDay(reference, env.offsetQ), ms);
      } else {
        SameDaysKeepLedger(days, legacy, books, s.bookIndex, b);
      }
    }
  }

  // What noteActivity means: the session's book and the day gain the credited time, nothing else gains any.
  lemma ReadMeans(env: Env, last: nat, books: seq<Book>, s: Session, days: seq<DayStats>, d: nat, k: nat)
    requires s.bookIndex < |books| && k < |books|
    ensures var r, ms, reference := BooksRead(env, last, books, s), CreditedMs(env, s), ReferenceFor(env, last, books, s);
            && (k != s.bookIndex ==> r[k] == books[k])
            && r[s.bookIndex].totalReadingMs == books[s.bookIndex].totalReadingMs + ms
            && TotalTime(r) == TotalTime(books) + ms
            && (ms > 0 && IsClockValid(reference) ==>
                  && r[s.bookIndex].lastReadAt == reference
                  && r[s.bookIndex].firstReadAt
                     == if books[s.bookIndex].firstReadAt == 0 then reference else books[s.bookIndex].firstReadAt)
            && DayTotal(DaysRead(env, last, books, s, days), d)
               == DayTotal(days, d) + (if IsClockValid(reference) && d == LocalDay(reference, env.offsetQ) then ms else 0)
            && DayTotal(r[s.bookIndex].readingDays, d)
               == DayTotal(books[s.bookIndex].readingDays, d)
                  + (if IsClockValid(reference) && d == LocalDay(reference, env.offsetQ) then ms else 0)
  {
    hide LocalDay, ReferenceTimestamp;
    var ms, reference := CreditedMs(env, s), ReferenceFor(env, last, books, s);
    UpsertTotal(days, LocalDay(reference, env.offsetQ), ms, d);
    UpsertTotal(books[s.bookIndex].readingDays, LocalDay(reference, env.offsetQ), ms, d);
    if ms > 0 {
      TotalTimeUpdate(books, s.bookIndex, Read(books[s.bookIndex], ms, reference, env.offsetQ));
    }
  }

  lemma {:induction false} TotalTimeUpdate(books: seq<Book>, i: nat, b: Book)
    requires i < |books|
    ensures TotalTime(books[i := b]) == TotalTime(books) - books[i].totalReadingMs + b.totalReadingMs
  {
    var u := books[i := b];
    if i < |books| - 1 {
      TotalTimeUpdate(books[..|books| - 1], i, b);
      assert u[..|books| - 1] == books[..|books| - 1][i := b];
    } else {
      assert u[..|books| - 1] == books[..|books| - 1];
    }
  }

  lemma LedgerGives(days: seq<DayStats>, legacy: seq<DayStats>, books: seq<Book>, i: nat)
    requires LedgerOk(days, legacy, books)
    ensures DaysFit(days) && NoDayZero(legacy) && AllDaysOk(books) && Sorted(days)
    ensures days != [] ==> days[|days| - 1].dayOrdinal != 0
    ensures i < |books| ==> DaysOk(books[i]) && Sorted(books[i].readingDays)
  {
    if i < |books| { assert DaysOk(books[i]); }
  }

  // getReferenceDayOrdinal.
  function ReferenceDay(env: Env, last: nat, books: seq<Book>, days: seq<DayStats>): nat {
    var reference := ReferenceTimestamp(last, books, env.authoritative, 0);
    if IsClockValid(reference) then LocalDay(reference, env.offsetQ)
    else if days != [] then days[|days| - 1].dayOrdinal
    else 0
  }

  lemma NoReferenceNoDays(env: Env, last: nat, books: seq<Book>, days: seq<DayStats>)
    requires DaysFit(days) && ReferenceDay(env, last, books, days) == 0
    ensures days == []
  {
    hide LocalDay, ReferenceTimestamp;
    ValidDaysAreNotZero(ReferenceTimestamp(last, books, env.authoritative, 0), env.offsetQ);
  }

  // ----- the end of a session -----

  function SessionMs(s: Session): nat {
    if s.accumulatedMs > UINT32_MAX then UINT32_MAX else s.accumulatedMs
  }

  predicate Counted(s: Session) {
    s.accumulatedMs >= MIN_SESSION_READING_MS
  }

  // Only sessions of three minutes and more count.
  function BooksEnded(books: seq<Book>, s: Session): (r: seq<Book>)
    requires s.bookIndex < |books|
    ensures |r| == |books|
  {
    var b := books[s.bookIndex];
    if Counted(s) then books[s.bookIndex := b.(sessions := b.sessions + 1, lastSessionMs := SessionMs(s))] else books
  }

  // The log keeps the latest 256 entries.
  function Logged(log: seq<SessionEntry>, dayOrdinal: nat, sessionMs: nat): (r: seq<SessionEntry>)
    requires |log| <= MAX_SESSION_LOG_ENTRIES
    ensures |r| <= MAX_SESSION_LOG_ENTRIES
    ensures r != log ==> r != [] && r[|r| - 1] == SessionEntry(dayOrdinal, sessionMs)
  {
    if dayOrdinal == 0 || sessionMs == 0 then log
    else if |log| < MAX_SESSION_LOG_ENTRIES then log + [SessionEntry(dayOrdinal, sessionMs)]
    else log[1..] + [SessionEntry(dayOrdinal, sessionMs)]
  }

  function LogEnded(env: Env, last: nat, books: seq<Book>, s: Session, log: seq<SessionEntry>): (r: seq<SessionEntry>)
    requires s.bookIndex < |books| && |log| <= MAX_SESSION_LOG_ENTRIES
    ensures |r| <= MAX_SESSION_LOG_ENTRIES
  {
    var ended := BooksEnded(books, s);
    var reference := ReferenceTimestamp(last, ended, env.authoritative, books[s.bookIndex].lastReadAt);
    if Counted(s) && IsClockValid(reference) then Logged(log, LocalDay(reference, env.offsetQ), SessionMs(s)) else log
  }

  // ++sessionSerialCounter, on 32 bits.
  function NextSerial(serial: nat): nat {
    (serial + 1) % TICK_RANGE
  }

  function SnapshotOf(b: Book, s: Session, serial: nat): Snapshot {
    Snapshot(true, serial, b.bookId, b.path, SessionMs(s), Counted(s), !s.startCompleted && b.completed,
             s.startProgressPercent, b.lastProgressPercent)
  }

  // ----- what may happen to the disk -----

  // Untouched, or left by one save of this document.
  ghost predicate SaveOutcome(before: Disk<StatsDoc>, after: Disk<StatsDoc>, doc: StatsDoc, f: Faults) {
    after == before || after == Last(SaveTrace(before, doc, f))
  }

  // Enough time since the last save for another one while reading.
  predicate Due(env: Env, lastSaveMs: nat) {
    lastSaveMs == 0 || Elapsed(env.millis, lastSaveMs) >= DEFERRED_SAVE_INTERVAL_MS
  }

  // Nothing stands in the way of a save.
  predicate CanSave(env: Env, loadFailed: bool) {
    !loadFailed && env.memoryOk && NoFaults(env.faults)
  }

  predicate NoFaults(f: Faults) {
    f == Faults(false, Complete, false, false)
  }

  // A save has nothing to do, or is put off while reading.
  predicate SaveSkipped(env: Env, dirty: bool, active: bool, lastSaveMs: nat, d: Disk<StatsDoc>) {
    (!dirty && d.main != Absent) || (active && !(dirty && Due(env, lastSaveMs)))
  }

  // What saveToFile returns.
  predicate SaveOk(env: Env, dirty: bool, active: bool, lastSaveMs: nat, loadFailed: bool, d: Disk<StatsDoc>) {
    SaveSkipped(env, dirty, active, lastSaveMs, d) || (!loadFailed && env.memoryOk && SaveReturns(d, env.faults))
  }

  // A save without faults puts the whole document into the main file, whatever was there.
  lemma CleanSaveStores(d: Disk<StatsDoc>, doc: StatsDoc, f: Faults)
    ensures NoFaults(f) ==> Last(SaveTrace(d, doc, f)).main == Whole(doc)
  {
  }

  lemma SavesWithoutFaults(d: Disk<StatsDoc>, f: Faults)
    ensures NoFaults(f) ==> SaveReturns(d, f)
  {
  }

  // ----- opening a book -----

  function ResolvedId(lib: Library, path: string, preferred: string): string {
    if preferred != "" then preferred else lib.resolveStableBookId(lib.normalizePath(path))
  }

  // The id beginSession works with.
  function SessionId(lib: Library, path: string): string {
    ResolvedId(lib, path, lib.resolveStableBookId(path))
  }

  // The book denoted, identified anew, or a new one in front of the others.
  ghost predicate FoundOrMade(lib: Library, before: seq<Book>, after: seq<Book>, path: string, title: string, author: string,
                              cover: string, id: string, i: nat, index: nat) {
    if i < |before| then
      index == i && after == before[i := Identified(lib, before[i], path, title, author, cover, id)]
    else index == 0 && after == [NewBook(path, title, author, cover, id)] + before
  }

  lemma IndexInRange(lib: Library, books: seq<Book>, path: string, title: string, author: string, id: string, index: nat)
    requires Denotes(lib, books, path, title, author, id, index)
    ensures index <= |books|
  {
  }

  // What has been recorded of a book: everything but its names.
  ghost predicate SameRecord(a: Book, b: Book) {
    a == b.(bookId := a.bookId, path := a.path, knownPaths := a.knownPaths,
            title := a.title, author := a.author, coverBmpPath := a.coverBmpPath)
  }

  // A path once remembered finds the book from then on.
  lemma RememberedPath(lib: Library, b: Book, path: string, earlier: string)
    requires path != ""
    ensures lib.normalizePath(path) != "" ==> MatchesPath(lib, WithPath(lib, b, path), path)
    ensures lib.normalizePath(earlier) != "" && lib.normalizePath(earlier) in b.knownPaths ==>
              lib.normalizePath(earlier) in WithPath(lib, b, path).knownPaths
    ensures lib.normalizePath(path) != "" ==> lib.normalizePath(path) in WithPath(lib, b, path).knownPaths
    ensures SameRecord(WithPath(lib, b, path), b)
  {
    DedupedMembers(b.knownPaths + [lib.normalizePath(path)]);
  }

  // After a move the book is found under its new path and under the old one, with all it has recorded.
  lemma MovedIsFound(lib: Library, b: Book, oldKey: string, newPath: string, title: string, author: string,
                     cover: string, bookId: string)
    requires newPath != ""
    ensures var m := Moved(lib, b, oldKey, newPath, title, author, cover, bookId);
            && (lib.normalizePath(newPath) != "" ==> m.path == lib.normalizePath(newPath) && MatchesPath(lib, m, newPath))
            && (oldKey != "" && lib.normalizePath(oldKey) != "" ==> MatchesPath(lib, m, oldKey))
            && SameRecord(m, b)
  {
    hide Deduped, IsLegacyBookId;
    var b0 := if bookId != "" then WithId(b, bookId) else b;
    if oldKey != "" { RememberedPath(lib, b0, oldKey, oldKey); }
    RememberedPath(lib, WithPath(lib, b0, oldKey), newPath, oldKey);
  }

  // A book identified anew is found under the path it was opened with, with all it has recorded.
  lemma IdentifiedIsFound(lib: Library, b: Book, path: string, title: string, author: string, cover: string, id: string)
    ensures var m := Identified(lib, b, path, title, author, cover, id);
            && (path != "" && lib.normalizePath(path) != "" ==> MatchesPath(lib, m, path))
            && SameRecord(m, b)
  {
    hide Deduped, IsLegacyBookId;
    if path != "" { RememberedPath(lib, WithId(b, id), path, path); }
  }

  lemma IdentifiedDays(lib: Library, b: Book, path: string, title: string, author: string, cover: string, id: string)
    ensures Identified(lib, b, path, title, author, cover, id).readingDays == b.readingDays
  {
  }

  lemma StampedDays(b: Book, reference: nat)
    ensures Stamped(b, reference).readingDays == b.readingDays
  {
  }

  // The progress of a book, noted when it is opened; reaching 100% completes it.
  function WithProgress(b: Book, progress: nat, completed: bool, chapter: string, chapterProgress: nat): Book {
    b.(lastProgressPercent := ClampPercent(progress), chapterTitle := chapter,
       chapterProgressPercent := ClampPercent(chapterProgress),
       completed := b.completed || completed || ClampPercent(progress) >= 100)
  }

  // The books when a session has been closed, if one was open.
  function BooksClosed(env: Env, last: nat, books: seq<Book>, s: Session): seq<Book>
    requires s.active ==> s.bookIndex < |books|
  {
    if s.active then BooksEnded(BooksRead(env, last, books, s), SessionClosed(env, s)) else books
  }

  // The closed session, as its snapshot and its log entry see it.
  function SessionClosed(env: Env, s: Session): Session {
    s.(accumulatedMs := s.accumulatedMs + CreditedMs(env, s), lastInteractionMs := env.millis)
  }

  function DaysClosed(env: Env, last: nat, books: seq<Book>, s: Session, days: seq<DayStats>): seq<DayStats>
    requires s.active ==> s.bookIndex < |books|
  {
    if s.active then DaysRead(env, last, books, s, days) else days
  }

  function LogClosed(env: Env, last: nat, books: seq<Book>, s: Session, log: seq<SessionEntry>): seq<SessionEntry>
    requires (s.active ==> s.bookIndex < |books|) && |log| <= MAX_SESSION_LOG_ENTRIES
  {
    if s.active then LogEnded(env, last, BooksRead(env, last, books, s), SessionClosed(env, s), log) else log
  }

  // The document of a store whose session, if it has one, has been closed.
  function ContentsClosed(env: Env, last: nat, books: seq<Book>, legacy: seq<DayStats>, days: seq<DayStats>,
                          log: seq<SessionEntry>, s: Session): StatsDoc
    requires (s.active ==> s.bookIndex < |books|) && |log| <= MAX_SESSION_LOG_ENTRIES
  {
    Document(BooksClosed(env, last, books, s), legacy, DaysClosed(env, last, books, s, days), LogClosed(env, last, books, s, log))
  }

  // A session on the book denoted by i, which now comes first; the others keep their order.
  ghost predicate Opened(env: Env, last: nat, before: seq<Book>, after: seq<Book>, s: Session, path: string, title: string,
                         author: string, cover: string, progress: nat, chapter: string, chapterProgress: nat, i: nat) {
    var normalized, id := env.lib.normalizePath(path), SessionId(env.lib, path);
    var rest := if i < |before| then Without(before, i) else before;
    var b := if i < |before| then Identified(env.lib, before[i], normalized, title, author, cover, id)
             else NewBook(normalized, title, author, cover, id);
    var b1 := WithProgress(b, progress, false, chapter, chapterProgress);
    && s == Session(true, 0, env.millis, 0, b.lastProgressPercent, b.completed)
    && after == [Stamped(b1, ReferenceTimestamp(last, [b1] + rest, env.authoritative, b1.lastReadAt))] + rest
  }

  // Opening a path the loader could keep a book for leaves a book the loader keeps; a path that normalises
  // to nothing and denotes no book makes one that the next load drops.
  lemma OpenedIsStorable(env: Env, last: nat, before: seq<Book>, after: seq<Book>, s: Session, path: string, title: string,
                         author: string, cover: string, progress: nat, chapter: string, chapterProgress: nat, i: nat)
    requires Opened(env, last, before, after, s, path, title, author, cover, progress, chapter, chapterProgress, i)
    requires i < |before| ==> Storable(before[i])
    ensures Storable(after[0]) <==> i < |before| || env.lib.normalizePath(path) != ""
  {
    hide ReferenceTimestamp, Deduped, IsLegacyBookId, Without;
    if i < |before| {
      IdentifiedStorable(env.lib, before[i], env.lib.normalizePath(path), title, author, cover, SessionId(env.lib, path));
    }
  }

  lemma IdentifiedStorable(lib: Library, b: Book, path: string, title: string, author: string, cover: string, id: string)
    requires Storable(b)
    ensures Storable(Identified(lib, b, path, title, author, cover, id))
  {
    hide IsLegacyBookId, Deduped;
    DedupedMembers(b.knownPaths + [lib.normalizePath(path)]);
  }

  // The books after updateProgress; completion is dated once.
  function BooksProgressed(env: Env, last: nat, books: seq<Book>, index: nat,
                           progress: nat, completed: bool, chapter: string, chapterProgress: nat): (r: seq<Book>)
    requires index < |books|
    ensures |r| == |books|
  {
    var b := books[index];
    var b1 := WithProgress(b, progress, completed, chapter, chapterProgress);
    if b1 == b then books
    else
      var b2 := Stamped(b1, ReferenceTimestamp(last, books[index := b1], env.authoritative, b1.lastReadAt));
      books[index := if b1.completed && !b.completed && b2.completedAt == 0 then b2.(completedAt := b2.lastReadAt) else b2]
  }

  lemma ProgressedDays(env: Env, last: nat, books: seq<Book>, index: nat,
                       progress: nat, completed: bool, chapter: string, chapterProgress: nat)
    requires index < |books|
    ensures var r := BooksProgressed(env, last, books, index, progress, completed, chapter, chapterProgress);
            r[index].readingDays == books[index].readingDays
  {
    hide ReferenceTimestamp;
  }

  // Progress changes no other book and no recorded time; a book once completed stays so; and a date of
  // completion is set only when the book is completed, and only once.
  lemma ProgressKeeps(env: Env, last: nat, books: seq<Book>, index: nat,
                      progress: nat, completed: bool, chapter: string, chapterProgress: nat, k: nat)
    requires index < |books| && k < |books|
    ensures var r := BooksProgressed(env, last, books, index, progress, completed, chapter, chapterProgress);
            && (k != index ==> r[k] == books[k])
            && r[k].readingDays == books[k].readingDays && r[k].totalReadingMs == books[k].totalReadingMs
            && (books[k].completed ==> r[k].completed)
            && (r[k].completed != books[k].completed ==> k == index && (completed || progress >= 100))
            && (r[k].completedAt != books[k].completedAt ==>
                  books[k].completedAt == 0 && !books[k].completed && r[k].completed && r[k].completedAt == r[k].lastReadAt)
            && (r[k].firstReadAt != books[k].firstReadAt ==> books[k].firstReadAt == 0)
            && r[k].lastProgressPercent <= if k == index then 100 else books[k].lastProgressPercent
  {
    hide ReferenceTimestamp;
  }

  lemma MovedFound(lib: Library, before: seq<Book>, found: seq<Book>, path: string, title: string, author: string,
                   cover: string, id: string, i: nat, index: nat)
    requires FoundOrMade(lib, before, found, path, title, author, cover, id, i, index)
    ensures index < |found|
    ensures MovedToFront(found, index)
         == [if i < |before| then Identified(lib, before[i], path, title, author, cover, id)
             else NewBook(path, title, author, cover, id)]
            + if i < |before| then Without(before, i) else before
  {
    hide Identified;
    if i < |before| {
      assert Without(found, i) == Without(before, i);
    } else {
      assert Without(found, 0) == before;
    }
  }

  // The four comparisons of updateProgress tell whether anything changes.
  lemma ProgressUnchanged(b: Book, progress: nat, completed: bool, chapter: string, chapterProgress: nat)
    ensures WithProgress(b, progress, completed, chapter, chapterProgress) == b
        <==> b.lastProgressPercent == ClampPercent(progress) && b.chapterTitle == chapter
             && b.chapterProgressPercent == ClampPercent(chapterProgress)
             && !(!b.completed && (completed || ClampPercent(progress) >= 100))
    ensures WithProgress(b, progress, completed, chapter, chapterProgress).completed
        <==> b.completed || completed || ClampPercent(progress) >= 100
  {
  }

  // ----- editing the ledger -----

  // The book has the time a negative adjustment asks for.
  predicate Covers(b: Book, dayOrdinal: nat, deltaMs: int) {
    deltaMs < 0 ==> -deltaMs <= DayTotal(b.readingDays, dayOrdinal) && -deltaMs <= b.totalReadingMs
  }

  function Adjusted(b: Book, dayOrdinal: nat, deltaMs: int): Book
    requires Covers(b, dayOrdinal, deltaMs)
  {
    b.(totalReadingMs := b.totalReadingMs + deltaMs,
       readingDays := if deltaMs > 0 then Upsert(b.readingDays, dayOrdinal, deltaMs)
                      else Reduced(b.readingDays, dayOrdinal, -deltaMs))
  }

  // Only the day adjusted has changed, by exactly the adjustment.
  ghost predicate AdjustedTimes(before: seq<DayStats>, after: seq<DayStats>, dayOrdinal: nat, deltaMs: int) {
    forall d: nat :: DayTotal(after, d) == DayTotal(before, d) + if d == dayOrdinal then deltaMs else 0
  }

  lemma AdjustMeans(before: seq<DayStats>, after: seq<DayStats>, legacy: seq<DayStats>, books: seq<Book>, index: nat,
                    dayOrdinal: nat, deltaMs: int)
    requires LedgerOk(before, legacy, books) && index < |books| && dayOrdinal != 0 && deltaMs != 0
    requires Covers(books[index], dayOrdinal, deltaMs)
    requires LedgerOk(after, legacy, books[index := Adjusted(books[index], dayOrdinal, deltaMs)])
    ensures AdjustedTimes(before, after, dayOrdinal, deltaMs)
  {
    hide Upsert, Reduced, DayTotal, BookTotal, LedgerOk;
    var b := Adjusted(books[index], dayOrdinal, deltaMs);
    LedgerGives(before, legacy, books, index);
    forall d: nat ensures DayTotal(after, d) == DayTotal(before, d) + if d == dayOrdinal then deltaMs else 0 {
      BookTotalUpdate(books, index, b, d);
      LedgerAt(before, legacy, books, d);
      LedgerAt(after, legacy, books[index := b], d);
      if deltaMs > 0 {
        UpsertTotal(books[index].readingDays, dayOrdinal, deltaMs, d);
      } else {
        ReducedTotal(books[index].readingDays, dayOrdinal, -deltaMs, d);
      }
    }
  }

  lemma LedgerAt(days: seq<DayStats>, legacy: seq<DayStats>, books: seq<Book>, d: nat)
    requires LedgerOk(days, legacy, books)
    ensures DayTotal(days, d) == DayTotal(legacy, d) + BookTotal(books, d)
  {
  }

  // Every day has lost exactly what the book had recorded on it.
  ghost predicate TimesWithout(before: seq<DayStats>, after: seq<DayStats>, b: Book) {
    forall d: nat :: DayTotal(after, d) + DayTotal(b.readingDays, d) == DayTotal(before, d)
  }

  lemma ErasedTimes(before: seq<DayStats>, after: seq<DayStats>, legacy: seq<DayStats>, books: seq<Book>, index: nat)
    requires LedgerOk(before, legacy, books) && index < |books| && LedgerOk(after, legacy, Without(books, index))
    ensures TimesWithout(before, after, books[index])
  {
    hide LedgerOk, DayTotal, BookTotal;
    forall d: nat ensures DayTotal(after, d) + DayTotal(books[index].readingDays, d) == DayTotal(before, d) {
      LedgerAt(before, legacy, books, d);
      LedgerAt(after, legacy, Without(books, index), d);
      BookTotalSplit(books, index, d);
      BookTotalConcat(books[..index], books[index + 1..], d);
    }
  }

  // The session is over if its book is gone, and still denotes the same book otherwise.
  ghost predicate SessionFollows(before: Session, booksBefore: seq<Book>, removed: nat, after: Session, booksAfter: seq<Book>) {
    if !before.active then after == before
    else if before.bookIndex == removed then after == NO_SESSION
    else
      && after == before.(bookIndex := after.bookIndex)
      && before.bookIndex < |booksBefore| && after.bookIndex < |booksAfter|
      && booksAfter[after.bookIndex] == booksBefore[before.bookIndex]
  }

  lemma IndexByPath(lib: Library, books: seq<Book>, path: string, index: nat)
    requires FirstByPath(lib, books, path, index)
    ensures index <= |books|
  {
  }

  lemma IndexById(books: seq<Book>, bookId: string, index: nat)
    requires FirstById(books, bookId, index)
    ensures index <= |books|
  {
  }

  function Described(b: Book, title: string, author: string, cover: string): Book {
    b.(title := OrElse(title, b.title), author := OrElse(author, b.author), coverBmpPath := OrElse(cover, b.coverBmpPath))
  }

  // Found by the old key, else by the id given.
  ghost predicate KnownBy(lib: Library, books: seq<Book>, oldKey: string, bookId: string, index: nat) {
    if index < |books| then
      FirstByPath(lib, books, oldKey, index)
      || (FirstByPath(lib, books, oldKey, |books|) && bookId != "" && FirstById(books, bookId, index))
    else
      index == |books| && FirstByPath(lib, books, oldKey, index) && (bookId != "" ==> FirstById(books, bookId, index))
  }

  function Moved(lib: Library, b: Book, oldKey: string, newPath: string, title: string, author: string, cover: string,
                 bookId: string): Book {
    Described(WithPath(lib, WithPath(lib, if bookId != "" then WithId(b, bookId) else b, oldKey), newPath), title, author, cover)
  }

  lemma MovedDays(lib: Library, b: Book, oldKey: string, newPath: string, title: string, author: string,
                  cover: string, bookId: string)
    ensures Moved(lib, b, oldKey, newPath, title, author, cover, bookId).readingDays == b.readingDays
  {
  }

  // ----- taking over a document -----

  function Trimmed(log: seq<SessionEntry>): (r: seq<SessionEntry>)
    ensures |r| <= MAX_SESSION_LOG_ENTRIES
  {
    if |log| > MAX_SESSION_LOG_ENTRIES then log[|log| - MAX_SESSION_LOG_ENTRIES..] else log
  }

  // The books a load leaves: duplicates merged, ignored paths gone.
  function StoredBooks(lib: Library, doc: StatsDoc): seq<Book> {
    Kept(lib, MergedBooks(lib, NormalizedAll(lib, BooksOf(Version(doc), doc.books))))
  }

  ghost predicate LegacyOf(doc: StatsDoc, legacy: seq<DayStats>) {
    if Version(doc) >= 6 then legacy == DaysOf(doc.legacyReadingDays)
    else forall d: nat :: d != 0 ==>
           DayTotal(legacy, d) == Excess(DayTotal(LegacySource(doc), d), BookTotal(BooksOf(Version(doc), doc.books), d))
  }

  // An older format, or books without an id, are written back in the current form.
  predicate NeedsRewrite(doc: StatsDoc) {
    Version(doc) < 6 || NeedsIds(Version(doc), doc.books)
  }

  lemma StoredBooksDays(lib: Library, doc: StatsDoc)
    ensures AllDaysOk(StoredBooks(lib, doc))
  {
    hide MergedBooks, BooksOf, Kept, AllDaysOk;
    BooksOfNoZero(Version(doc), doc.books);
    NormalizeBooksKeepsDays(lib, BooksOf(Version(doc), doc.books));
    KeptDays(lib, MergedBooks(lib, NormalizedAll(lib, BooksOf(Version(doc), doc.books))));
  }

  // The books a document names, duplicates merged.
  function NamedBooks(lib: Library, doc: StatsDoc): seq<Book> {
    MergedBooks(lib, NormalizedAll(lib, BooksOf(Version(doc), doc.books)))
  }

  // After a load, a day holds the document's time less what ignored books had recorded on it: the
  // document's time, which before version 6 is the larger of its two figures, if and only if no ignored
  // book has read on that day.
  lemma LoadedTime(lib: Library, doc: StatsDoc, days: seq<DayStats>, legacy: seq<DayStats>, d: nat)
    requires LedgerOk(days, legacy, StoredBooks(lib, doc)) && LegacyOf(doc, legacy) && d != 0
    ensures var read := BooksOf(Version(doc), doc.books);
            && BookTotal(StoredBooks(lib, doc), d) <= BookTotal(read, d)
            && DayTotal(days, d) == DocumentTime(doc, d) - (BookTotal(read, d) - BookTotal(StoredBooks(lib, doc), d))
            && (DayTotal(days, d) == DocumentTime(doc, d) <==> IgnoredIdle(lib, NamedBooks(lib, doc), d))
  {
    hide BooksOf, MergedBooks, NormalizedAll, Kept, BookTotal, DayTotal, LegacySource, LedgerOk, DaysOf, IgnoredIdle;
    var read := BooksOf(Version(doc), doc.books);
    LedgerAt(days, legacy, StoredBooks(lib, doc), d);
    NormalizeBooksKeepsTime(lib, read, d);
    KeptTime(lib, NamedBooks(lib, doc), d);
    LegacyTime(doc, legacy, d);
  }

  const IGNORED_PATH := "/ignore_stats/guide.txt"

  // A version 5 file whose only book lies in the ignored folder.
  function FileWithIgnoredBook(d: nat, ms: nat): StatsDoc {
    var record := NewBook(IGNORED_PATH, "", "", "", "id");
    StatsDoc(Some(5), [Timed(d, ms)], [], [], [BookEntry(record, [Timed(d, ms)])])
  }

  // A library with plain paths, in which everything below that folder is ignored.
  function PlainLibrary(): Library {
    Library((p: string) => p, (p: string) => p, (p: string) => "", (p: string) => true,
            (p: string) => "/ignore_stats/" <= p)
  }

  // Loading such a file loses the day altogether, although the migration just made it the maximum.
  lemma MigratedTimeCanVanish(days: seq<DayStats>, legacy: seq<DayStats>, d: nat, ms: nat)
    requires d != 0 && ms > 0
    requires var doc := FileWithIgnoredBook(d, ms);
             LedgerOk(days, legacy, StoredBooks(PlainLibrary(), doc)) && LegacyOf(doc, legacy)
    ensures DocumentTime(FileWithIgnoredBook(d, ms), d) == ms && DayTotal(days, d) == 0
  {
    hide LedgerOk, LegacyOf, DocumentTime;
    var doc, lib := FileWithIgnoredBook(d, ms), PlainLibrary();
    IgnoredFileTime(d, ms);
    LoadedTime(lib, doc, days, legacy, d);
    IgnoredFileBooks(d, ms);
  }

  // The store such a load leaves: an empty one.
  lemma IgnoredFileLoads(d: nat, ms: nat)
    requires d != 0
    ensures var doc := FileWithIgnoredBook(d, ms);
            LedgerOk([], [], StoredBooks(PlainLibrary(), doc)) && LegacyOf(doc, [])
  {
    hide StoredBooks, DocumentTime;
    var doc := FileWithIgnoredBook(d, ms);
    IgnoredFileBooks(d, ms);
    NothingRecorded();
    OneDay(d, ms);
    forall e: nat | e != 0
      ensures DayTotal([], e) == Excess(DayTotal(LegacySource(doc), e), BookTotal(BooksOf(Version(doc), doc.books), e))
    {
      OtherDay(d, ms, e);
    }
  }

  lemma OtherDay(d: nat, ms: nat, e: nat)
    requires d != 0
    ensures var doc := FileWithIgnoredBook(d, ms);
            DayTotal(LegacySource(doc), e) == BookTotal(BooksOf(Version(doc), doc.books), e)
  {
    var doc := FileWithIgnoredBook(d, ms);
    OneDay(d, ms);
    var b := BookOf(5, doc.books[0]);
    assert doc.books[..0] == [];
    assert BooksOf(5, doc.books) == [b] && b.readingDays == [DayStats(d, ms)];
    assert [b][..0] == [];
    assert BookTotal([b], e) == DayTotal(b.readingDays, e);
  }

  lemma IgnoredFileTime(d: nat, ms: nat)
    requires d != 0
    ensures var doc := FileWithIgnoredBook(d, ms);
            DocumentTime(doc, d) == ms && BookTotal(BooksOf(Version(doc), doc.books), d) == ms
  {
    var doc := FileWithIgnoredBook(d, ms);
    OneDay(d, ms);
    var b := BookOf(5, doc.books[0]);
    assert doc.books[..0] == [];
    assert BooksOf(5, doc.books) == [b] && b.readingDays == [DayStats(d, ms)];
    assert [b][..0] == [];
    assert BookTotal([b], d) == DayTotal(b.readingDays, d);
  }

  lemma OneDay(d: nat, ms: nat)
    requires d != 0
    ensures DaysOf([Timed(d, ms)]) == [DayStats(d, ms)] && DaysOf([]) == [] && DayTotal([DayStats(d, ms)], d) == ms
  {
    assert [Timed(d, ms)][..0] == [] && [DayStats(d, ms)][..0] == [];
  }

  lemma IgnoredFileBooks(d: nat, ms: nat)
    requires d != 0
    ensures StoredBooks(PlainLibrary(), FileWithIgnoredBook(d, ms)) == []
  {
    hide Normalized, Deduped;
    var doc, lib := FileWithIgnoredBook(d, ms), PlainLibrary();
    OneDay(d, ms);
    var b := BookOf(5, doc.books[0]);
    assert doc.books[..0] == [] && BooksOf(5, doc.books) == [b];
    var n := NormalizedBook(lib, b);
    assert NormalizedAll(lib, [b]) == [n] && [n][1..] == [];
    assert MergedBooks(lib, [n]) == [n];
    assert n.path == IGNORED_PATH && lib.ignored(n.path);
    assert [n][..0] == [] && Kept(lib, [n]) == [];
  }

  lemma LegacyTime(doc: StatsDoc, legacy: seq<DayStats>, d: nat)
    requires LegacyOf(doc, legacy) && d != 0
    ensures DayTotal(legacy, d) + BookTotal(BooksOf(Version(doc), doc.books), d) == DocumentTime(doc, d)
  {
    hide BooksOf, BookTotal, DayTotal, DaysOf;
  }

  // The last known timestamp after a load: filled in from the books if it was not valid.
  function Remembered(last: nat, books: seq<Book>): nat {
    if !IsClockValid(last) && IsClockValid(LatestKnown(last, books)) then LatestKnown(last, books) else last
  }

  function FoundDisk(d: Disk<StatsDoc>, f: Faults): Disk<StatsDoc> {
    if f.renameFails then d else Recovered(d)
  }

  lemma PathIsUsable()
    ensures PathUsable(STATS_PATH)
  {
  }
}
