// The reading-stats document: reading it in any format version, and the migration of the day list
// of versions before 6 (src/JsonSettingsIO.cpp, src/ReadingStatsStore.cpp).
module StatsDocument {
  import opened Wrappers
  import opened ReadingDays
  import opened Books
  import opened Ledger

  // An element of a day list: an object with both figures, or a bare ordinal.
  datatype DayEntry = Timed(dayOrdinal: nat, readingMs: nat) | Bare(dayOrdinal: nat)

  datatype SessionEntry = SessionEntry(dayOrdinal: nat, sessionMs: nat)

  // The record of a book without its days, and the days as the document lists them.
  datatype BookEntry = BookEntry(record: Book, readingDays: seq<DayEntry>)

  datatype StatsDoc = StatsDoc(formatVersion: Option<nat>, readingDays: seq<DayEntry>, legacyReadingDays: seq<DayEntry>,
                               sessionLog: seq<SessionEntry>, books: seq<BookEntry>)

  // What a load puts into the store.
  datatype Loaded = Loaded(books: seq<Book>, legacyReadingDays: seq<DayStats>, readingDays: seq<DayStats>,
                           sessionLog: seq<SessionEntry>, dirty: bool)

  const FORMAT_VERSION := 6

  function Version(doc: StatsDoc): nat {
    if doc.formatVersion.None? then 1 else doc.formatVersion.value
  }

  // ----- the lists of a document -----

  function DayOf(e: DayEntry): DayStats {
    DayStats(e.dayOrdinal, if e.Timed? then e.readingMs else 0)
  }

  // appendReadingDays: entries without an ordinal are dropped.
  function DaysOf(entries: seq<DayEntry>): seq<DayStats> {
    if entries == [] then []
    else DaysOf(entries[..|entries| - 1])
         + if entries[|entries| - 1].dayOrdinal != 0 then [DayOf(entries[|entries| - 1])] else []
  }

  method AppendReadingDays(destination: seq<DayStats>, source: seq<DayEntry>) returns (r: seq<DayStats>)
    ensures r == destination + DaysOf(source)
  {
    r := destination;
    for i := 0 to |source|
      invariant r == destination + DaysOf(source[..i])
    {
      assert source[..i + 1][..i] == source[..i];
      var day := DayOf(source[i]);
      if day.dayOrdinal != 0 { r := r + [day]; }
    }
    assert source[..|source|] == source;
  }

  lemma {:induction false} DaysOfNoZero(entries: seq<DayEntry>)
    ensures NoDayZero(DaysOf(entries))
  {
    if entries != [] { DaysOfNoZero(entries[..|entries| - 1]); }
  }

  function KeptSessions(entries: seq<SessionEntry>): seq<SessionEntry> {
    if entries == [] then []
    else
      var last := entries[|entries| - 1];
      KeptSessions(entries[..|entries| - 1]) + if last.dayOrdinal != 0 && last.sessionMs != 0 then [last] else []
  }

  method ReadSessionLog(entries: seq<SessionEntry>) returns (log: seq<SessionEntry>)
    ensures log == KeptSessions(entries)
  {
    log := [];
    for i := 0 to |entries|
      invariant log == KeptSessions(entries[..i])
    {
      assert entries[..i + 1][..i] == entries[..i];
      var session := entries[i];
      if session.dayOrdinal != 0 && session.sessionMs != 0 { log := log + [session]; }
    }
    assert entries[..|entries|] == entries;
  }

  function NonEmpty(paths: seq<string>): seq<string> {
    if paths == [] then []
    else NonEmpty(paths[..|paths| - 1]) + if paths[|paths| - 1] != "" then [paths[|paths| - 1]] else []
  }

  // One book: version 1 knew no days per book.
  function BookOf(version: nat, e: BookEntry): Book {
    e.record.(knownPaths := NonEmpty(e.record.knownPaths), readingDays := if version >= 2 then DaysOf(e.readingDays) else [])
  }

  // Books without a path are dropped.
  function BooksOf(version: nat, entries: seq<BookEntry>): seq<Book> {
    if entries == [] then []
    else
      var last := entries[|entries| - 1];
      BooksOf(version, entries[..|entries| - 1]) + if last.record.path != "" then [BookOf(version, last)] else []
  }

  // Whether some book read needs its id resolved.
  predicate NeedsIds(version: nat, entries: seq<BookEntry>) {
    exists k :: 0 <= k < |entries| && entries[k].record.path != "" && (version < 3 || entries[k].record.bookId == "")
  }

  lemma {:induction false} BooksReadFrom(version: nat, entries: seq<BookEntry>, k: nat)
    requires k < |entries| && entries[k].record.path != ""
    ensures BookOf(version, entries[k]) in BooksOf(version, entries)
  {
    hide BookOf;
    if k < |entries| - 1 {
      BooksReadFrom(version, entries[..|entries| - 1], k);
    }
  }

  lemma {:induction false} EntryOfBook(version: nat, entries: seq<BookEntry>, b: Book) returns (k: nat)
    requires b in BooksOf(version, entries)
    ensures k < |entries| && entries[k].record.path != "" && b == BookOf(version, entries[k])
  {
    hide BookOf;
    var front, last := entries[..|entries| - 1], entries[|entries| - 1];
    if b in BooksOf(version, front) {
      k := EntryOfBook(version, front, b);
    } else {
      k := |entries| - 1;
    }
  }

  // Ids are missing exactly if some book is read that has none, or any book at all from a document before
  // version 3.
  lemma NeedsIdsExact(version: nat, entries: seq<BookEntry>)
    ensures NeedsIds(version, entries)
       <==> exists b :: b in BooksOf(version, entries) && (version <= 2 || b.bookId == "")
  {
    hide NonEmpty, DaysOf;
    if NeedsIds(version, entries) {
      var k :| 0 <= k < |entries| && entries[k].record.path != "" && (version < 3 || entries[k].record.bookId == "");
      BooksReadFrom(version, entries, k);
      assert BookOf(version, entries[k]).bookId == entries[k].record.bookId;
    }
    if exists b :: b in BooksOf(version, entries) && (version <= 2 || b.bookId == "") {
      var b :| b in BooksOf(version, entries) && (version <= 2 || b.bookId == "");
      var k := EntryOfBook(version, entries, b);
      assert entries[k].record.bookId == b.bookId;
    }
  }

  method ReadKnownPaths(paths: seq<string>) returns (r: seq<string>)
    ensures r == NonEmpty(paths)
  {
    r := [];
    for i := 0 to |paths|
      invariant r == NonEmpty(paths[..i])
    {
      assert paths[..i + 1][..i] == paths[..i];
      if paths[i] != "" { r := r + [paths[i]]; }
    }
    assert paths[..|paths|] == paths;
  }

  method ReadBook(version: nat, obj: BookEntry) returns (book: Book)
    ensures book == BookOf(version, obj)
  {
    var knownPaths := ReadKnownPaths(obj.record.knownPaths);
    book := obj.record.(knownPaths := knownPaths, readingDays := []);
    if version >= 2 {
      var days := AppendReadingDays(book.readingDays, obj.readingDays);
      assert days == DaysOf(obj.readingDays);
      book := book.(readingDays := days);
    }
  }

  method ReadBooks(version: nat, entries: seq<BookEntry>) returns (books: seq<Book>, dirty: bool)
    ensures books == BooksOf(version, entries)
    ensures dirty <==> NeedsIds(version, entries)
  {
    hide BookOf;
    books, dirty := [], false;
    for i := 0 to |entries|
      invariant books == BooksOf(version, entries[..i])
      invariant dirty <==> exists k :: 0 <= k < i && entries[k].record.path != "" && (version < 3 || entries[k].record.bookId == "")
    {
      assert entries[..i + 1][..i] == entries[..i];
      var obj := entries[i];
      if obj.record.path == "" { continue; }
      var book := ReadBook(version, obj);
      if version < 3 || obj.record.bookId == "" { dirty := true; }
      books := books + [book];
    }
    assert entries[..|entries|] == entries;
  }

  lemma {:induction false} BooksOfNoZero(version: nat, entries: seq<BookEntry>)
    ensures forall k :: 0 <= k < |BooksOf(version, entries)| ==> NoDayZero(BooksOf(version, entries)[k].readingDays)
  {
    if entries != [] {
      BooksOfNoZero(version, entries[..|entries| - 1]);
      DaysOfNoZero(entries[|entries| - 1].readingDays);
    }
  }

  // ----- the migration -----

  // The time a day has beyond what the books account for.
  function Excess(total: nat, inBooks: nat): nat {
    if total > inBooks then total - inBooks else 0
  }

  function Unassigned(totals: seq<DayStats>, inBooks: seq<DayStats>): seq<DayStats> {
    if totals == [] then []
    else
      var last := totals[|totals| - 1];
      var excess := Excess(last.readingMs, DayTotal(inBooks, last.dayOrdinal));
      Unassigned(totals[..|totals| - 1], inBooks)
      + if last.dayOrdinal != 0 && excess > 0 then [DayStats(last.dayOrdinal, excess)] else []
  }

  lemma {:induction false} UnassignedMeans(totals: seq<DayStats>, inBooks: seq<DayStats>, d: nat)
    requires Sorted(totals)
    ensures NoDayZero(Unassigned(totals, inBooks))
    ensures d != 0 ==> DayTotal(Unassigned(totals, inBooks), d) == Excess(DayTotal(totals, d), DayTotal(inBooks, d))
  {
    if totals != [] {
      var front, last := totals[..|totals| - 1], totals[|totals| - 1];
      UnassignedMeans(front, inBooks, d);
      TotalOfLastDay(totals);
      TotalOfAbsentDay(front, last.dayOrdinal);
      var excess := Excess(last.readingMs, DayTotal(inBooks, last.dayOrdinal));
      if last.dayOrdinal != 0 && excess > 0 {
        DayTotalAppend(Unassigned(front, inBooks), DayStats(last.dayOrdinal, excess), d);
      } else {
        assert Unassigned(totals, inBooks) == Unassigned(front, inBooks);
      }
    }
  }

  // std::lower_bound and the comparison after it.
  method TimeOfDay(days: seq<DayStats>, dayOrdinal: nat) returns (ms: nat)
    requires Sorted(days)
    ensures ms == DayTotal(days, dayOrdinal)
  {
    var it := LowerBoundDay(days, dayOrdinal);
    if it < |days| && days[it].dayOrdinal == dayOrdinal {
      TotalAt(days, it);
      return days[it].readingMs;
    }
    DayIsAbsent(days, dayOrdinal, it);
    return 0;
  }

  // convertLegacyReadingDaysToUnassigned: what remains of the legacy days once the books are paid out.
  method ConvertLegacyReadingDays(legacy: seq<DayStats>, books: seq<Book>) returns (unassignedDays: seq<DayStats>)
    ensures NoDayZero(unassignedDays)
    ensures forall d: nat :: d != 0 ==>
              DayTotal(unassignedDays, d) == Excess(DayTotal(legacy, d), BookTotal(books, d))
  {
    hide DaysFit;
    var bookTotals: seq<DayStats> := [];
    EmptyFits();
    for i := 0 to |books|
      invariant bookTotals == AddBooks([], books[..i]) && DaysFit(bookTotals)
    {
      assert books[..i + 1][..i] == books[..i];
      bookTotals := AccumulateDays(bookTotals, books[i].readingDays);
    }
    assert books[..|books|] == books;
    var legacyTotals := NormalizeReadingDays(legacy);
    unassignedDays := SubtractAssigned(legacyTotals, bookTotals);
    NormalizedMeans(legacy);
    UnassignedMeans(legacyTotals, bookTotals, 0);
    forall d: nat | d != 0 ensures DayTotal(unassignedDays, d) == Excess(DayTotal(legacy, d), BookTotal(books, d)) {
      UnassignedMeans(legacyTotals, bookTotals, d);
      AddBooksMeans([], books, d);
    }
  }

  lemma EmptyFits()
    ensures DaysFit([])
  {
  }

  method SubtractAssigned(legacyTotals: seq<DayStats>, bookTotals: seq<DayStats>) returns (unassignedDays: seq<DayStats>)
    requires DaysFit(bookTotals)
    ensures unassignedDays == Unassigned(legacyTotals, bookTotals)
  {
    unassignedDays := [];
    for i := 0 to |legacyTotals|
      invariant unassignedDays == Unassigned(legacyTotals[..i], bookTotals)
    {
      assert legacyTotals[..i + 1][..i] == legacyTotals[..i];
      var legacyDay := legacyTotals[i];
      if legacyDay.dayOrdinal == 0 || legacyDay.readingMs == 0 { continue; }
      var assignedMs := TimeOfDay(bookTotals, legacyDay.dayOrdinal);
      if legacyDay.readingMs > assignedMs {
        unassignedDays := unassignedDays + [DayStats(legacyDay.dayOrdinal, legacyDay.readingMs - assignedMs)];
      }
    }
    assert legacyTotals[..|legacyTotals|] == legacyTotals;
  }

  // ----- loading -----

  // The list of days an old document means: its legacy list from version 2 on, unless that is empty.
  function LegacySource(doc: StatsDoc): seq<DayStats> {
    if Version(doc) < 2 || (Version(doc) < 6 && DaysOf(doc.legacyReadingDays) == []) then DaysOf(doc.readingDays)
    else DaysOf(doc.legacyReadingDays)
  }

  // The time a list gives day d, and whether it names any day at all.
  function EntryTime(entries: seq<DayEntry>, d: nat): nat {
    if entries == [] then 0
    else
      var last := entries[|entries| - 1];
      EntryTime(entries[..|entries| - 1], d) + if last.Timed? && last.dayOrdinal == d then last.readingMs else 0
  }

  ghost predicate NamesDays(entries: seq<DayEntry>) {
    exists k :: 0 <= k < |entries| && entries[k].dayOrdinal != 0
  }

  lemma {:induction false} DaysOfMeans(entries: seq<DayEntry>, d: nat)
    requires d != 0
    ensures DayTotal(DaysOf(entries), d) == EntryTime(entries, d)
    ensures DaysOf(entries) != [] <==> NamesDays(entries)
  {
    if entries != [] {
      var front, last := entries[..|entries| - 1], entries[|entries| - 1];
      DaysOfMeans(front, d);
      assert entries == front + [last];
      if last.dayOrdinal != 0 {
        DayTotalAppend(DaysOf(front), DayOf(last), d);
        assert entries[|entries| - 1].dayOrdinal != 0;
      } else {
        assert DaysOf(front) + [] == DaysOf(front);
      }
      if NamesDays(front) {
        var k :| 0 <= k < |front| && front[k].dayOrdinal != 0;
        assert entries[k].dayOrdinal != 0;
      }
    } else {
      assert DaysOf(entries) == [];
    }
  }

  // A document without a version is of the first; books of the first version have no days of their own, later
  // ones those they list; nothing else of a book depends on the version.
  lemma BookOfExact(version: nat, e: BookEntry, d: nat)
    requires d != 0
    ensures var b := BookOf(version, e);
            && (version == 0 || version == 1 ==> b.readingDays == [])
            && (version > 1 ==> DayTotal(b.readingDays, d) == EntryTime(e.readingDays, d))
            && b.(knownPaths := e.record.knownPaths, readingDays := e.record.readingDays) == e.record
  {
    hide NonEmpty, DaysOf, DayTotal, EntryTime;
    DaysOfMeans(e.readingDays, d);
  }

  lemma UnversionedIsFirst(doc: StatsDoc)
    ensures doc.formatVersion.None? ==> Version(doc) == 1
    ensures doc.formatVersion.Some? ==> doc.formatVersion == Some(Version(doc))
  {
  }

  // Which list of an old document counts: the legacy one from version 2 on, but before version 6 only if it
  // names a day; else the other one.
  lemma LegacySourceExact(doc: StatsDoc, d: nat)
    requires d != 0
    ensures Version(doc) < 2 ==> DayTotal(LegacySource(doc), d) == EntryTime(doc.readingDays, d)
    ensures 2 <= Version(doc) < 6 && NamesDays(doc.legacyReadingDays) ==>
              DayTotal(LegacySource(doc), d) == EntryTime(doc.legacyReadingDays, d)
    ensures 2 <= Version(doc) < 6 && !NamesDays(doc.legacyReadingDays) ==>
              DayTotal(LegacySource(doc), d) == EntryTime(doc.readingDays, d)
    ensures Version(doc) >= 6 ==> DayTotal(LegacySource(doc), d) == EntryTime(doc.legacyReadingDays, d)
  {
    hide DaysOf, DayTotal, EntryTime;
    DaysOfMeans(doc.readingDays, d);
    DaysOfMeans(doc.legacyReadingDays, d);
  }

  // The time the document gives day d, books apart or books included.
  function DocumentTime(doc: StatsDoc, d: nat): nat {
    var books := BookTotal(BooksOf(Version(doc), doc.books), d);
    var legacy := DayTotal(LegacySource(doc), d);
    if Version(doc) >= 6 then legacy + books
    else if legacy > books then legacy else books
  }

  // loadReadingStatsFromFile, once the document has been parsed. Before version 6 the legacy list
  // held all reading of a day, so the day's time becomes the larger of the two figures.
  method ReadDocument(doc: StatsDoc) returns (l: Loaded)
    ensures l.books == BooksOf(Version(doc), doc.books)
    ensures l.sessionLog == if Version(doc) >= 4 then KeptSessions(doc.sessionLog) else []
    ensures l.dirty <==> Version(doc) < 6 || NeedsIds(Version(doc), doc.books)
    ensures DaysFit(l.readingDays) && NoDayZero(l.legacyReadingDays)
    ensures Version(doc) >= 6 ==> l.legacyReadingDays == DaysOf(doc.legacyReadingDays)
    ensures Version(doc) < 6 ==> forall d: nat :: d != 0 ==>
              DayTotal(l.legacyReadingDays, d) == Excess(DayTotal(LegacySource(doc), d), BookTotal(l.books, d))
    ensures forall d: nat :: d != 0 ==> DayTotal(l.readingDays, d) == DocumentTime(doc, d)
  {
    hide DaysFit, BooksOf, NeedsIds, KeptSessions;
    var formatVersion := if doc.formatVersion.Some? then doc.formatVersion.value else 1;
    var readingDays := AppendReadingDays([], doc.readingDays);
    assert readingDays == DaysOf(doc.readingDays);
    DaysOfNoZero(doc.readingDays);
    DaysOfNoZero(doc.legacyReadingDays);
    var legacy: seq<DayStats>;
    if formatVersion >= 2 {
      legacy := AppendReadingDays([], doc.legacyReadingDays);
      assert legacy == DaysOf(doc.legacyReadingDays);
      if formatVersion < 6 && legacy == [] {
        legacy := readingDays;
      }
    } else {
      legacy := readingDays;
    }
    var sessionLog, dirty := [], false;
    if formatVersion >= 4 {
      sessionLog := ReadSessionLog(doc.sessionLog);
    } else {
      dirty := true;
    }
    var books, unresolved := ReadBooks(formatVersion, doc.books);
    dirty := dirty || unresolved;
    assert legacy == LegacySource(doc);
    if formatVersion < 6 {
      legacy := ConvertLegacyReadingDays(legacy, books);
      dirty := true;
    }
    readingDays := RebuildAggregated(legacy, books);
    l := Loaded(books, legacy, readingDays, sessionLog, dirty);
  }

  // The migrated figure: no reading is lost, and none is counted twice.
  lemma MigrationTakesMaximum(doc: StatsDoc, d: nat)
    requires Version(doc) < 6
    ensures var books := BookTotal(BooksOf(Version(doc), doc.books), d);
            var legacy := DayTotal(LegacySource(doc), d);
            && Excess(legacy, books) + books == DocumentTime(doc, d)
            && (DocumentTime(doc, d) == legacy || DocumentTime(doc, d) == books)
            && legacy <= DocumentTime(doc, d) && books <= DocumentTime(doc, d)
  {
  }

  // ----- saving and loading again -----

  function Entries(days: seq<DayStats>): (r: seq<DayEntry>)
    ensures |r| == |days|
  {
    seq(|days|, k requires 0 <= k < |days| => Timed(days[k].dayOrdinal, days[k].readingMs))
  }

  function EntryOf(b: Book): BookEntry {
    BookEntry(b.(readingDays := []), Entries(b.readingDays))
  }

  function BookEntries(books: seq<Book>): (r: seq<BookEntry>)
    ensures |r| == |books|
  {
    seq(|books|, k requires 0 <= k < |books| => EntryOf(books[k]))
  }

  // saveReadingStats.
  function Document(books: seq<Book>, legacy: seq<DayStats>, readingDays: seq<DayStats>, log: seq<SessionEntry>): StatsDoc {
    StatsDoc(Some(FORMAT_VERSION), Entries(readingDays), Entries(legacy), log, BookEntries(books))
  }

  // Files are written in format version 6, with every book, day and session in its place.
  lemma DocumentExact(books: seq<Book>, legacy: seq<DayStats>, readingDays: seq<DayStats>, log: seq<SessionEntry>)
    ensures var doc := Document(books, legacy, readingDays, log);
            && doc.formatVersion == Some(6) && |doc.books| == |books| && |doc.readingDays| == |readingDays|
            && |doc.legacyReadingDays| == |legacy| && doc.sessionLog == log
            && (forall k :: 0 <= k < |readingDays| ==>
                  doc.readingDays[k] == Timed(readingDays[k].dayOrdinal, readingDays[k].readingMs))
            && (forall k :: 0 <= k < |legacy| ==> doc.legacyReadingDays[k] == Timed(legacy[k].dayOrdinal, legacy[k].readingMs))
            && (forall k :: 0 <= k < |books| ==> doc.books[k].record == books[k].(readingDays := []))
  {
  }

  lemma {:induction false} EntriesRoundTrip(days: seq<DayStats>)
    requires NoDayZero(days)
    ensures DaysOf(Entries(days)) == days
  {
    if days != [] {
      var front, last := days[..|days| - 1], days[|days| - 1];
      EntriesRoundTrip(front);
      assert Entries(days)[..|days| - 1] == Entries(front);
      assert last.dayOrdinal != 0 && days == front + [last];
    }
  }

  lemma {:induction false} PathsRoundTrip(paths: seq<string>)
    ensures |NonEmpty(paths)| <= |paths|
    ensures NonEmpty(paths) == paths <==> "" !in paths
  {
    if paths != [] {
      var front, last := paths[..|paths| - 1], paths[|paths| - 1];
      PathsRoundTrip(front);
      assert paths == front + [last];
      if last == "" { assert |NonEmpty(paths)| < |paths|; }
    }
  }

  lemma {:induction false} LogRoundTrip(log: seq<SessionEntry>)
    ensures |KeptSessions(log)| <= |log|
    ensures KeptSessions(log) == log <==> forall k :: 0 <= k < |log| ==> log[k].dayOrdinal != 0 && log[k].sessionMs != 0
  {
    if log != [] {
      var front, last := log[..|log| - 1], log[|log| - 1];
      LogRoundTrip(front);
      assert log == front + [last];
      if last.dayOrdinal == 0 || last.sessionMs == 0 { assert |KeptSessions(log)| < |log|; }
    }
  }

  // A book the loader keeps as it is.
  predicate Storable(b: Book) {
    b.path != "" && "" !in b.knownPaths
  }

  // What comes back of saved books: those with a path, without empty known paths.
  function ReadBack(books: seq<Book>): (r: seq<Book>)
    ensures |r| <= |books|
  {
    if books == [] then []
    else
      var last := books[|books| - 1];
      ReadBack(books[..|books| - 1]) + if last.path != "" then [last.(knownPaths := NonEmpty(last.knownPaths))] else []
  }

  lemma BookRoundTrip(b: Book)
    requires NoDayZero(b.readingDays)
    ensures BookOf(FORMAT_VERSION, EntryOf(b)) == b.(knownPaths := NonEmpty(b.knownPaths)) && EntryOf(b).record.path == b.path
  {
    EntriesRoundTrip(b.readingDays);
  }

  lemma BooksOneMore(version: nat, front: seq<BookEntry>, last: BookEntry)
    ensures BooksOf(version, front + [last])
         == BooksOf(version, front) + if last.record.path != "" then [BookOf(version, last)] else []
  {
    hide BookOf;
    assert (front + [last])[..|front|] == front;
  }

  lemma BookEntriesOneMore(front: seq<Book>, last: Book)
    ensures BookEntries(front + [last]) == BookEntries(front) + [EntryOf(last)]
  {
    hide EntryOf;
  }

  lemma NoBooksRoundTrip()
    ensures BooksOf(FORMAT_VERSION, BookEntries([])) == []
  {
  }

  lemma {:induction false} BooksRoundTrip(books: seq<Book>)
    requires forall k :: 0 <= k < |books| ==> NoDayZero(books[k].readingDays)
    ensures BooksOf(FORMAT_VERSION, BookEntries(books)) == ReadBack(books)
  {
    hide EntryOf, BookOf, BooksOf, BookEntries, NoDayZero, NonEmpty;
    if books == [] {
      NoBooksRoundTrip();
    } else {
      var front, last := books[..|books| - 1], books[|books| - 1];
      BooksRoundTrip(front);
      BookRoundTrip(last);
      assert books == front + [last];
      BookEntriesOneMore(front, last);
      BooksOneMore(FORMAT_VERSION, BookEntries(front), EntryOf(last));
    }
  }

  // Nothing is dropped or changed exactly when every book is storable.
  lemma {:induction false} ReadBackIsExact(books: seq<Book>)
    ensures ReadBack(books) == books <==> forall k :: 0 <= k < |books| ==> Storable(books[k])
  {
    hide NonEmpty;
    if books != [] {
      var front, last := books[..|books| - 1], books[|books| - 1];
      ReadBackIsExact(front);
      PathsRoundTrip(last.knownPaths);
      assert books == front + [last];
      if last.path == "" {
        assert ReadBack(books) == ReadBack(front);
      } else {
        var kept := last.(knownPaths := NonEmpty(last.knownPaths));
        assert ReadBack(books) == ReadBack(front) + [kept];
        if ReadBack(books) == books { SameFrontAndLast(ReadBack(front), kept, front, last); }
      }
    }
  }

  lemma SameFrontAndLast<T>(a: seq<T>, x: T, b: seq<T>, y: T)
    requires a + [x] == b + [y]
    ensures a == b && x == y
  {
    assert (a + [x])[|a|] == x && (b + [y])[|b|] == y;
    assert a == (a + [x])[..|a|] && b == (b + [y])[..|b|];
  }

  // No book without a path has read on day d.
  ghost predicate PathlessIdle(books: seq<Book>, d: nat) {
    forall k :: 0 <= k < |books| && books[k].path == "" ==> DayTotal(books[k].readingDays, d) == 0
  }

  lemma PathlessOneMore(front: seq<Book>, last: Book, d: nat)
    ensures PathlessIdle(front + [last], d)
       <==> PathlessIdle(front, d) && (last.path == "" ==> DayTotal(last.readingDays, d) == 0)
  {
    hide DayTotal;
    var books := front + [last];
    assert books[|front|] == last;
    if PathlessIdle(books, d) {
      forall k | 0 <= k < |front| && front[k].path == "" ensures DayTotal(front[k].readingDays, d) == 0 {
        assert books[k] == front[k];
      }
    }
  }

  lemma ReadBackOneMore(front: seq<Book>, last: Book)
    ensures ReadBack(front + [last])
         == if last.path != "" then ReadBack(front) + [last.(knownPaths := NonEmpty(last.knownPaths))] else ReadBack(front)
  {
    assert (front + [last])[..|front|] == front;
  }

  // A day loses exactly the time of the books without a path.
  lemma {:induction false} ReadBackTime(books: seq<Book>, d: nat)
    ensures BookTotal(ReadBack(books), d) <= BookTotal(books, d)
    ensures BookTotal(ReadBack(books), d) == BookTotal(books, d) <==> PathlessIdle(books, d)
  {
    if books != [] {
      hide NonEmpty, DayTotal, ReadBack, BookTotal, PathlessIdle;
      var front, last := books[..|books| - 1], books[|books| - 1];
      assert books == front + [last];
      ReadBackTime(front, d);
      ReadBackOneMore(front, last);
      PathlessOneMore(front, last, d);
      BookTotalAppend(front, last, d);
      BookTotalAppend(ReadBack(front), last.(knownPaths := NonEmpty(last.knownPaths)), d);
    }
  }

  // A saved store reads back with its legacy days, with its sessions of some length and day, and with
  // its books that have a path. It reads back as it was exactly when there is nothing else in it, and
  // the time of a day exactly when no book without a path has read on it.
  lemma DocumentRoundTrip(books: seq<Book>, legacy: seq<DayStats>, readingDays: seq<DayStats>, log: seq<SessionEntry>, d: nat)
    requires LedgerOk(readingDays, legacy, books)
    ensures var doc := Document(books, legacy, readingDays, log);
            && BooksOf(Version(doc), doc.books) == ReadBack(books)
            && (ReadBack(books) == books <==> forall k :: 0 <= k < |books| ==> Storable(books[k]))
            && DaysOf(doc.legacyReadingDays) == legacy && LegacySource(doc) == legacy
            && (KeptSessions(doc.sessionLog) == log
                <==> forall k :: 0 <= k < |log| ==> log[k].dayOrdinal != 0 && log[k].sessionMs != 0)
            && (DocumentTime(doc, d) == DayTotal(readingDays, d) <==> PathlessIdle(books, d))
  {
    hide ReadBack, BooksOf, BookEntries, Storable, KeptSessions, DayTotal, BookTotal, PathlessIdle;
    forall k | 0 <= k < |books| ensures NoDayZero(books[k].readingDays) {
      assert DaysOk(books[k]);
    }
    BooksRoundTrip(books);
    ReadBackIsExact(books);
    ReadBackTime(books, d);
    EntriesRoundTrip(legacy);
    LogRoundTrip(log);
  }
}
