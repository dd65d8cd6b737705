// The aggregated reading ledger (src/ReadingStatsStore.cpp): the time of every local day is the
// unassigned legacy time plus what the books recorded on it.
module Ledger {
  import opened ReadingDays
  import opened Books

  // The time of day d over all books.
  function BookTotal(books: seq<Book>, d: nat): nat {
    if books == [] then 0
    else BookTotal(books[..|books| - 1], d) + DayTotal(books[|books| - 1].readingDays, d)
  }

  ghost predicate Aggregates(readingDays: seq<DayStats>, legacy: seq<DayStats>, books: seq<Book>) {
    forall d: nat :: DayTotal(readingDays, d) == DayTotal(legacy, d) + BookTotal(books, d)
  }

  // What every operation of the store keeps.
  ghost predicate LedgerOk(readingDays: seq<DayStats>, legacy: seq<DayStats>, books: seq<Book>) {
    && DaysFit(readingDays) && NoDayZero(legacy) && AllDaysOk(books)
    && Aggregates(readingDays, legacy, books)
  }

  ghost predicate DaysFit(days: seq<DayStats>) {
    Sorted(days) && NoDayZero(days)
  }

  // ----- sums over books -----

  lemma BookTotalAppend(books: seq<Book>, last: Book, d: nat)
    ensures BookTotal(books + [last], d) == BookTotal(books, d) + DayTotal(last.readingDays, d)
  {
    assert (books + [last])[..|books|] == books;
  }

  lemma {:induction false} BookTotalConcat(a: seq<Book>, b: seq<Book>, d: nat)
    ensures BookTotal(a + b, d) == BookTotal(a, d) + BookTotal(b, d)
  {
    if b == [] {
      assert a + b == a;
    } else {
      var front, last := b[..|b| - 1], b[|b| - 1];
      assert a + b == (a + front) + [last];
      BookTotalConcat(a, front, d);
      BookTotalAppend(a + front, last, d);
    }
  }

  lemma BookTotalSplit(books: seq<Book>, i: nat, d: nat)
    requires i < |books|
    ensures BookTotal(books, d) == BookTotal(books[..i], d) + DayTotal(books[i].readingDays, d) + BookTotal(books[i + 1..], d)
  {
    assert books == (books[..i] + [books[i]]) + books[i + 1..];
    BookTotalConcat(books[..i] + [books[i]], books[i + 1..], d);
    BookTotalAppend(books[..i], books[i], d);
  }

  lemma BookTotalUpdate(books: seq<Book>, i: nat, b: Book, d: nat)
    requires i < |books|
    ensures BookTotal(books[i := b], d)
         == BookTotal(books, d) - DayTotal(books[i].readingDays, d) + DayTotal(b.readingDays, d)
  {
    var u := books[i := b];
    BookTotalSplit(books, i, d);
    BookTotalSplit(u, i, d);
    assert u[..i] == books[..i] && u[i + 1..] == books[i + 1..];
  }

  // ----- rebuilding the aggregate -----

  function AddDays(days: seq<DayStats>, more: seq<DayStats>): seq<DayStats> {
    if more == [] then days
    else Added(AddDays(days, more[..|more| - 1]), more[|more| - 1].dayOrdinal, more[|more| - 1].readingMs)
  }

  function AddBooks(days: seq<DayStats>, books: seq<Book>): seq<DayStats> {
    if books == [] then days else AddDays(AddBooks(days, books[..|books| - 1]), books[|books| - 1].readingDays)
  }

  lemma {:induction false} AddDaysMeans(days: seq<DayStats>, more: seq<DayStats>, d: nat)
    requires DaysFit(days)
    ensures DaysFit(AddDays(days, more))
    ensures d != 0 ==> DayTotal(AddDays(days, more), d) == DayTotal(days, d) + DayTotal(more, d)
  {
    if more != [] {
      var last := more[|more| - 1];
      AddDaysMeans(days, more[..|more| - 1], d);
      AddedMeans(AddDays(days, more[..|more| - 1]), last.dayOrdinal, last.readingMs, d);
    }
  }

  lemma {:induction false} AddBooksMeans(days: seq<DayStats>, books: seq<Book>, d: nat)
    requires DaysFit(days)
    ensures DaysFit(AddBooks(days, books))
    ensures d != 0 ==> DayTotal(AddBooks(days, books), d) == DayTotal(days, d) + BookTotal(books, d)
  {
    hide DaysFit;
    if books != [] {
      AddBooksMeans(days, books[..|books| - 1], d);
      AddDaysMeans(AddBooks(days, books[..|books| - 1]), books[|books| - 1].readingDays, d);
    }
  }

  lemma NormalizedFits(days: seq<DayStats>)
    requires NoDayZero(days)
    ensures DaysFit(Normalized(days))
  {
    NormalizedMeans(days);
    NormalizedNoDayZero(days);
  }

  // addReadingToDays for every entry of another list.
  method AccumulateDays(days: seq<DayStats>, more: seq<DayStats>) returns (r: seq<DayStats>)
    requires DaysFit(days)
    ensures r == AddDays(days, more) && DaysFit(r)
  {
    r := days;
    for i := 0 to |more|
      invariant r == AddDays(days, more[..i]) && DaysFit(r)
    {
      assert more[..i + 1][..i] == more[..i];
      AddedMeans(r, more[i].dayOrdinal, more[i].readingMs, 0);
      r := AddReadingToDays(r, more[i].dayOrdinal, more[i].readingMs);
    }
    assert more[..|more|] == more;
  }

  // rebuildAggregatedReadingDays: the legacy days, normalised, plus the days of every book.
  method RebuildAggregated(legacy: seq<DayStats>, books: seq<Book>) returns (r: seq<DayStats>)
    requires NoDayZero(legacy)
    ensures DaysFit(r)
    ensures forall d: nat :: d != 0 ==> DayTotal(r, d) == DayTotal(legacy, d) + BookTotal(books, d)
  {
    hide DaysFit;
    r := NormalizeReadingDays(legacy);
    NormalizedFits(legacy);
    for i := 0 to |books|
      invariant r == AddBooks(Normalized(legacy), books[..i]) && DaysFit(r)
    {
      assert books[..i + 1][..i] == books[..i];
      r := AccumulateDays(r, books[i].readingDays);
    }
    assert books[..|books|] == books;
    forall d: nat | d != 0 ensures DayTotal(r, d) == DayTotal(legacy, d) + BookTotal(books, d) {
      AddBooksMeans(Normalized(legacy), books, d);
      NormalizedMeans(legacy);
    }
  }

  lemma {:induction false} NoTimeOnDayZero(books: seq<Book>)
    requires AllDaysOk(books)
    ensures BookTotal(books, 0) == 0
  {
    if books != [] {
      var last := books[|books| - 1];
      NoTimeOnDayZero(books[..|books| - 1]);
      assert DaysOk(last);
      HasDayPositive(last.readingDays);
      TotalOfAbsentDay(last.readingDays, 0);
    }
  }

  // A rebuilt aggregate is right for every day, once the books' days are in order.
  lemma RebuiltIsLedger(readingDays: seq<DayStats>, legacy: seq<DayStats>, books: seq<Book>)
    requires DaysFit(readingDays) && NoDayZero(legacy) && AllDaysOk(books)
    requires forall d: nat :: d != 0 ==> DayTotal(readingDays, d) == DayTotal(legacy, d) + BookTotal(books, d)
    ensures LedgerOk(readingDays, legacy, books)
  {
    NoTimeOnDayZero(books);
    HasDayPositive(readingDays);
    HasDayPositive(legacy);
    TotalOfAbsentDay(readingDays, 0);
    TotalOfAbsentDay(legacy, 0);
  }

  // The books and the unassigned time determine the aggregated time of every day.
  lemma LedgerDeterminesTimes(a: seq<DayStats>, b: seq<DayStats>, legacy: seq<DayStats>, books: seq<Book>, d: nat)
    requires LedgerOk(a, legacy, books) && LedgerOk(b, legacy, books)
    ensures DayTotal(a, d) == DayTotal(b, d)
  {
    assert DayTotal(a, d) == DayTotal(legacy, d) + BookTotal(books, d);
  }

  lemma NothingRecorded()
    ensures LedgerOk([], [], [])
  {
  }

  // ----- changes that keep the ledger right -----

  // Crediting a book and the aggregate with the same time on the same day.
  lemma CreditKeepsLedger(readingDays: seq<DayStats>, legacy: seq<DayStats>, books: seq<Book>, i: nat, b: Book, day: nat, ms: nat)
    requires LedgerOk(readingDays, legacy, books) && i < |books| && day != 0
    requires b.readingDays == Upsert(books[i].readingDays, day, ms)
    ensures LedgerOk(Upsert(readingDays, day, ms), legacy, books[i := b])
  {
    assert DaysOk(books[i]);
    UpsertFits(readingDays, day, ms);
    UpsertFits(books[i].readingDays, day, ms);
    forall d: nat
      ensures DayTotal(Upsert(readingDays, day, ms), d) == DayTotal(legacy, d) + BookTotal(books[i := b], d)
    {
      UpsertTotal(readingDays, day, ms, d);
      UpsertTotal(books[i].readingDays, day, ms, d);
      BookTotalUpdate(books, i, b, d);
    }
  }

  lemma UpsertFits(days: seq<DayStats>, day: nat, ms: nat)
    requires DaysFit(days) && day != 0
    ensures DaysFit(Upsert(days, day, ms))
  {
    UpsertSorted(days, day, ms);
    UpsertHas(days, day, ms, 0);
    HasDayPositive(days);
    HasDayPositive(Upsert(days, day, ms));
  }

  // Changing anything else of a book.
  lemma SameDaysKeepLedger(readingDays: seq<DayStats>, legacy: seq<DayStats>, books: seq<Book>, i: nat, b: Book)
    requires LedgerOk(readingDays, legacy, books) && i < |books| && b.readingDays == books[i].readingDays
    ensures LedgerOk(readingDays, legacy, books[i := b])
  {
    assert DaysOk(books[i]);
    forall d: nat ensures BookTotal(books[i := b], d) == BookTotal(books, d) {
      BookTotalUpdate(books, i, b, d);
    }
  }

  // A new book in front.
  lemma NewBookKeepsLedger(readingDays: seq<DayStats>, legacy: seq<DayStats>, books: seq<Book>, b: Book)
    requires LedgerOk(readingDays, legacy, books) && b.readingDays == []
    ensures LedgerOk(readingDays, legacy, [b] + books)
  {
    forall d: nat ensures BookTotal([b] + books, d) == BookTotal(books, d) {
      BookTotalConcat([b], books, d);
      BookTotalAppend([], b, d);
      assert [] + [b] == [b];
    }
  }

  function Without<T>(s: seq<T>, i: nat): (r: seq<T>)
    requires i < |s|
    ensures |r| == |s| - 1
  {
    s[..i] + s[i + 1..]
  }

  // touchBook's order: the book at i first, the others as they were.
  function MovedToFront<T>(s: seq<T>, i: nat): (r: seq<T>)
    requires i < |s|
    ensures |r| == |s|
  {
    [s[i]] + Without(s, i)
  }

  lemma MovingKeepsLedger(readingDays: seq<DayStats>, legacy: seq<DayStats>, books: seq<Book>, i: nat)
    requires LedgerOk(readingDays, legacy, books) && i < |books|
    ensures LedgerOk(readingDays, legacy, MovedToFront(books, i))
  {
    forall d: nat ensures BookTotal(MovedToFront(books, i), d) == BookTotal(books, d) {
      BookTotalSplit(books, i, d);
      BookTotalConcat([books[i]], Without(books, i), d);
      BookTotalConcat(books[..i], books[i + 1..], d);
      BookTotalAppend([], books[i], d);
      assert [] + [books[i]] == [books[i]];
    }
    WithoutDays(books, i);
  }

  lemma WithoutDays(books: seq<Book>, i: nat)
    requires AllDaysOk(books) && i < |books|
    ensures AllDaysOk(Without(books, i)) && DaysOk(books[i])
  {
  }

  // Erasing a book that never recorded a day.
  lemma ErasingUnreadKeepsLedger(readingDays: seq<DayStats>, legacy: seq<DayStats>, books: seq<Book>, i: nat)
    requires LedgerOk(readingDays, legacy, books) && i < |books| && books[i].readingDays == []
    ensures LedgerOk(readingDays, legacy, Without(books, i))
  {
    WithoutDays(books, i);
    forall d: nat ensures BookTotal(Without(books, i), d) == BookTotal(books, d) {
      BookTotalSplit(books, i, d);
      BookTotalConcat(books[..i], books[i + 1..], d);
    }
  }

  // ----- merging duplicates -----

  // Merging moves time between records but never changes what a day adds up to.
  lemma {:induction false} AbsorbKeepsTime(lib: Library, p: Book, rest: seq<Book>, d: nat)
    ensures DayTotal(Absorb(lib, p, rest).readingDays, d) + BookTotal(Others(p.bookId, rest), d)
         == DayTotal(p.readingDays, d) + BookTotal(rest, d)
  {
    hide Merge;
    if rest != [] {
      var front, last := rest[..|rest| - 1], rest[|rest| - 1];
      AbsorbKeepsTime(lib, p, front, d);
      AbsorbKeepsId(lib, p, front);
      DayTimeMerges(lib, Absorb(lib, p, front), last, d);
      BookTotalAppend(Others(p.bookId, front), last, d);
    }
  }

  lemma {:induction false} MergedBooksKeepTime(lib: Library, books: seq<Book>, d: nat)
    ensures BookTotal(MergedBooks(lib, books), d) == BookTotal(books, d)
    decreases |books|
  {
    hide Absorb, Others, DayTotal;
    if books != [] {
      var p, rest := books[0], books[1..];
      var others := Others(p.bookId, rest);
      AbsorbKeepsTime(lib, p, rest, d);
      MergedBooksKeepTime(lib, others, d);
      FirstBookTime(p, rest, d);
      FirstBookTime(Absorb(lib, p, rest), MergedBooks(lib, others), d);
      assert books == [p] + rest;
    }
  }

  lemma FirstBookTime(p: Book, rest: seq<Book>, d: nat)
    ensures BookTotal([p] + rest, d) == DayTotal(p.readingDays, d) + BookTotal(rest, d)
  {
    BookTotalConcat([p], rest, d);
    BookTotalAppend([], p, d);
    assert [] + [p] == [p];
  }

  lemma {:induction false} NormalizingKeepsTime(lib: Library, books: seq<Book>, d: nat)
    ensures BookTotal(NormalizedAll(lib, books), d) == BookTotal(books, d)
  {
    if books != [] {
      var front, last := books[..|books| - 1], books[|books| - 1];
      NormalizingKeepsTime(lib, front, d);
      assert NormalizedAll(lib, books) == NormalizedAll(lib, front) + [NormalizedBook(lib, last)];
      BookTotalAppend(NormalizedAll(lib, front), NormalizedBook(lib, last), d);
      NormalizedMeans(last.readingDays);
    }
  }

  // normalizeBooks conserves the reading time of every day.
  lemma NormalizeBooksKeepsTime(lib: Library, books: seq<Book>, d: nat)
    ensures BookTotal(MergedBooks(lib, NormalizedAll(lib, books)), d) == BookTotal(books, d)
  {
    MergedBooksKeepTime(lib, NormalizedAll(lib, books), d);
    NormalizingKeepsTime(lib, books, d);
  }

  lemma NormalizeBooksKeepsDays(lib: Library, books: seq<Book>)
    requires forall k :: 0 <= k < |books| ==> NoDayZero(books[k].readingDays)
    ensures AllDaysOk(MergedBooks(lib, NormalizedAll(lib, books)))
  {
    hide MergedBooks;
    var n := NormalizedAll(lib, books);
    forall k | 0 <= k < |n| ensures DaysOk(n[k]) {
      NormalizedBookDays(lib, books[k]);
    }
    MergedDays(lib, n);
  }

  // removeIgnoredBooks.
  function Kept(lib: Library, books: seq<Book>): (r: seq<Book>)
    ensures |r| <= |books|
  {
    if books == [] then []
    else Kept(lib, books[..|books| - 1]) + if lib.ignored(books[|books| - 1].path) then [] else [books[|books| - 1]]
  }

  method RemoveIgnored(lib: Library, books0: seq<Book>) returns (books: seq<Book>)
    ensures books == Kept(lib, books0)
  {
    books := [];
    for i := 0 to |books0|
      invariant books == Kept(lib, books0[..i])
    {
      assert books0[..i + 1][..i] == books0[..i];
      if !lib.ignored(books0[i].path) { books := books + [books0[i]]; }
    }
    assert books0[..|books0|] == books0;
  }

  // Exactly the ignored books are gone.
  lemma {:induction false} KeptMembers(lib: Library, books: seq<Book>, b: Book)
    ensures b in Kept(lib, books) <==> b in books && !lib.ignored(b.path)
  {
    if books != [] {
      var front, last := books[..|books| - 1], books[|books| - 1];
      KeptMembers(lib, front, b);
      assert books == front + [last];
    }
  }

  lemma KeptDays(lib: Library, books: seq<Book>)
    requires AllDaysOk(books)
    ensures AllDaysOk(Kept(lib, books))
  {
    hide Kept, DaysOk;
    forall k | 0 <= k < |Kept(lib, books)| ensures DaysOk(Kept(lib, books)[k]) {
      KeptMembers(lib, books, Kept(lib, books)[k]);
    }
  }

  lemma KeptOneMore(lib: Library, front: seq<Book>, last: Book)
    ensures Kept(lib, front + [last]) == if lib.ignored(last.path) then Kept(lib, front) else Kept(lib, front) + [last]
  {
    assert (front + [last])[..|front|] == front;
  }

  // No ignored book has read on day d.
  ghost predicate IgnoredIdle(lib: Library, books: seq<Book>, d: nat) {
    forall k :: 0 <= k < |books| && lib.ignored(books[k].path) ==> DayTotal(books[k].readingDays, d) == 0
  }

  lemma IgnoredOneMore(lib: Library, front: seq<Book>, last: Book, d: nat)
    ensures IgnoredIdle(lib, front + [last], d)
       <==> IgnoredIdle(lib, front, d) && (lib.ignored(last.path) ==> DayTotal(last.readingDays, d) == 0)
  {
    hide DayTotal;
    var books := front + [last];
    assert books[|front|] == last;
    if IgnoredIdle(lib, books, d) {
      forall k | 0 <= k < |front| && lib.ignored(front[k].path) ensures DayTotal(front[k].readingDays, d) == 0 {
        assert books[k] == front[k];
      }
    }
  }

  // A day keeps its time exactly when no ignored book has read on it.
  lemma {:induction false} KeptTime(lib: Library, books: seq<Book>, d: nat)
    ensures BookTotal(Kept(lib, books), d) <= BookTotal(books, d)
    ensures BookTotal(Kept(lib, books), d) == BookTotal(books, d) <==> IgnoredIdle(lib, books, d)
  {
    if books != [] {
      hide Kept, DayTotal, BookTotal, IgnoredIdle;
      var front, last := books[..|books| - 1], books[|books| - 1];
      assert books == front + [last];
      KeptTime(lib, front, d);
      KeptOneMore(lib, front, last);
      IgnoredOneMore(lib, front, last, d);
      BookTotalAppend(front, last, d);
      BookTotalAppend(Kept(lib, front), last, d);
    }
  }

  // ----- taking time off a day -----

  // adjustBookReadingTime for a negative delta: only if the day holds that much.
  function Reduced(days: seq<DayStats>, d: nat, ms: nat): (r: seq<DayStats>)
  {
    if days == [] then []
    else
      var front, last := days[..|days| - 1], days[|days| - 1];
      if last.dayOrdinal != d then Reduced(front, d, ms) + [last]
      else if last.readingMs <= ms then front
      else front + [DayStats(d, last.readingMs - ms)]
  }

  lemma {:induction false} ReducedHas(days: seq<DayStats>, d: nat, ms: nat, e: nat)
    ensures HasDay(Reduced(days, d, ms), e) ==> HasDay(days, e)
  {
    if days != [] {
      var front, last := days[..|days| - 1], days[|days| - 1];
      assert days == front + [last];
      HasAppend(front, last, e);
      if last.dayOrdinal != d {
        ReducedHas(front, d, ms, e);
        HasAppend(Reduced(front, d, ms), last, e);
      } else {
        HasAppend(front, DayStats(d, if last.readingMs <= ms then 0 else last.readingMs - ms), e);
      }
    }
  }

  lemma {:induction false} ReducedSorted(days: seq<DayStats>, d: nat, ms: nat)
    requires Sorted(days)
    ensures Sorted(Reduced(days, d, ms))
  {
    if days != [] && days[|days| - 1].dayOrdinal != d {
      var front, last := days[..|days| - 1], days[|days| - 1];
      var r := Reduced(front, d, ms);
      ReducedSorted(front, d, ms);
      forall k | 0 <= k < |r| ensures r[k].dayOrdinal < last.dayOrdinal {
        assert HasDay(r, r[k].dayOrdinal);
        ReducedHas(front, d, ms, r[k].dayOrdinal);
      }
    }
  }

  lemma {:induction false} ReducedTotal(days: seq<DayStats>, d: nat, ms: nat, e: nat)
    requires Sorted(days) && ms <= DayTotal(days, d)
    ensures DayTotal(Reduced(days, d, ms), e) == DayTotal(days, e) - if e == d then ms else 0
  {
    if days != [] {
      var front, last := days[..|days| - 1], days[|days| - 1];
      if last.dayOrdinal != d {
        ReducedTotal(front, d, ms, e);
        DayTotalAppend(Reduced(front, d, ms), last, e);
      } else {
        TotalOfLastDay(days);
        if last.readingMs > ms {
          DayTotalAppend(front, DayStats(d, last.readingMs - ms), e);
        }
      }
    }
  }

  lemma ReducedFits(days: seq<DayStats>, d: nat, ms: nat)
    requires DaysFit(days)
    ensures DaysFit(Reduced(days, d, ms))
  {
    ReducedSorted(days, d, ms);
    ReducedHas(days, d, ms, 0);
    HasDayPositive(days);
    HasDayPositive(Reduced(days, d, ms));
  }

  lemma {:induction false} TotalAt(days: seq<DayStats>, it: nat)
    requires Sorted(days) && it < |days|
    ensures DayTotal(days, days[it].dayOrdinal) == days[it].readingMs
  {
    if it < |days| - 1 {
      assert days[it].dayOrdinal < days[|days| - 1].dayOrdinal;
      TotalAt(days[..|days| - 1], it);
    } else {
      TotalOfLastDay(days);
    }
  }

  lemma {:induction false} ReducedAt(days: seq<DayStats>, it: nat, ms: nat)
    requires Sorted(days) && it < |days| && ms <= days[it].readingMs
    ensures Reduced(days, days[it].dayOrdinal, ms)
         == if days[it].readingMs == ms then Without(days, it)
            else days[it := DayStats(days[it].dayOrdinal, days[it].readingMs - ms)]
  {
    var front, last := days[..|days| - 1], days[|days| - 1];
    if it < |days| - 1 {
      assert days[it].dayOrdinal < last.dayOrdinal;
      ReducedAt(front, it, ms);
      assert Without(days, it) == Without(front, it) + [last];
    } else {
      assert Without(days, it) == front;
    }
  }

  // The day's time, or nothing when it has less than asked for.
  method TakeOff(days: seq<DayStats>, dayOrdinal: nat, ms: nat, total: nat) returns (ok: bool, r: seq<DayStats>)
    requires Sorted(days) && ms > 0
    ensures ok <==> ms <= DayTotal(days, dayOrdinal) && ms <= total
    ensures r == if ok then Reduced(days, dayOrdinal, ms) else days
  {
    var it := LowerBoundDay(days, dayOrdinal);
    if it == |days| || days[it].dayOrdinal != dayOrdinal {
      DayIsAbsent(days, dayOrdinal, it);
      return false, days;
    }
    TotalAt(days, it);
    if days[it].readingMs < ms || total < ms { return false, days; }
    ReducedAt(days, it, ms);
    ok, r := true, days[it := days[it].(readingMs := days[it].readingMs - ms)];
    if r[it].readingMs == 0 {
      r := r[..it] + r[it + 1..];
    }
  }

  lemma DayIsAbsent(days: seq<DayStats>, d: nat, it: nat)
    requires Sorted(days) && it <= |days| && (it == |days| || days[it].dayOrdinal != d)
    requires forall k :: 0 <= k < it ==> days[k].dayOrdinal < d
    requires forall k :: it <= k < |days| ==> days[k].dayOrdinal >= d
    ensures DayTotal(days, d) == 0
  {
    forall k | 0 <= k < |days| ensures days[k].dayOrdinal != d {
      if k > it { assert days[it].dayOrdinal < days[k].dayOrdinal; }
    }
    TotalOfAbsentDay(days, d);
  }
}
