// The summary of the reading ledger (src/ReadingStatsStore.cpp): what rebuildSummaryCache computes in
// its loops, against definitions per day.
module Summary {
  import opened ReadingDays
  import opened Books
  import opened Ledger
  import opened Streaks

  datatype SummaryCache = SummaryCache(valid: bool, referenceDayOrdinal: nat, booksFinishedCount: nat,
                                       totalReadingMs: nat, todayReadingMs: nat,
                                       recent7ReadingMs: nat, recent30ReadingMs: nat,
                                       currentStreakDays: nat, maxStreakDays: nat, goalReadingMs: nat)

  const EMPTY_CACHE := SummaryCache(false, 0, 0, 0, 0, 0, 0, 0, 0, 0)

  // ----- the figures -----

  function TotalTime(books: seq<Book>): nat {
    if books == [] then 0 else TotalTime(books[..|books| - 1]) + books[|books| - 1].totalReadingMs
  }

  function Finished(books: seq<Book>): nat {
    if books == [] then 0 else Finished(books[..|books| - 1]) + if books[|books| - 1].completed then 1 else 0
  }

  // The time of the days lo up to and including hi.
  function SpanTotal(days: seq<DayStats>, lo: nat, hi: nat): nat {
    if hi < lo then 0
    else (if hi == 0 then 0 else SpanTotal(days, lo, hi - 1)) + DayTotal(days, hi)
  }

  function WindowStart(referenceDay: nat, days: nat): nat {
    if days > 0 && referenceDay >= days - 1 then referenceDay - (days - 1) else 0
  }

  // The time of the last n days, the reference day included.
  function RecentTime(days: seq<DayStats>, referenceDay: nat, n: nat): nat {
    SpanTotal(days, WindowStart(referenceDay, n), referenceDay)
  }

  // The days on which the goal was met.
  function GoalMetDays(days: seq<DayStats>, goal: nat): set<nat> {
    set k | 0 <= k < |days| && days[k].readingMs >= goal :: days[k].dayOrdinal
  }

  ghost predicate SummaryHolds(c: SummaryCache, days: seq<DayStats>, books: seq<Book>) {
    && c.totalReadingMs == TotalTime(books) && c.booksFinishedCount == Finished(books)
    && DayFiguresHold(c, days)
    && (c.referenceDayOrdinal == 0 ==> days == [])
  }

  ghost predicate DayFiguresHold(c: SummaryCache, days: seq<DayStats>) {
    && c.todayReadingMs == DayTotal(days, c.referenceDayOrdinal)
    && c.recent7ReadingMs == RecentTime(days, c.referenceDayOrdinal, 7)
    && c.recent30ReadingMs == RecentTime(days, c.referenceDayOrdinal, 30)
    && IsLongestRun(GoalMetDays(days, c.goalReadingMs), c.maxStreakDays)
    && IsCurrentStreak(GoalMetDays(days, c.goalReadingMs), c.referenceDayOrdinal, c.currentStreakDays)
  }

  // Totals add up over any division of the books, starting from single ones.
  lemma {:induction false} TotalsAdd(a: seq<Book>, b: seq<Book>)
    ensures TotalTime(a + b) == TotalTime(a) + TotalTime(b) && Finished(a + b) == Finished(a) + Finished(b)
  {
    if b == [] {
      assert a + b == a;
    } else {
      var front, last := b[..|b| - 1], b[|b| - 1];
      TotalsAdd(a, front);
      assert (a + b)[..|a + b| - 1] == a + front && (a + b)[|a + b| - 1] == last;
    }
  }

  lemma TotalsOfOne(b: Book)
    ensures TotalTime([b]) == b.totalReadingMs
    ensures b.completed ==> Finished([b]) == 1
    ensures !b.completed ==> Finished([b]) == 0
  {
    assert [b][..0] == [];
  }

  // The last n days are the reference day and the n - 1 before it.
  lemma WindowExact(referenceDay: nat, n: nat, d: nat)
    requires n > 0
    ensures WindowStart(referenceDay, n) <= d <= referenceDay <==> d <= referenceDay < d + n
  {
  }

  // ----- lemmas about the loops -----

  lemma {:induction false} SpanOneMore(days: seq<DayStats>, n: nat, lo: nat, hi: nat)
    requires n < |days|
    ensures SpanTotal(days[..n + 1], lo, hi)
         == SpanTotal(days[..n], lo, hi) + if lo <= days[n].dayOrdinal <= hi then days[n].readingMs else 0
  {
    if lo <= hi {
      assert days[..n + 1] == days[..n] + [days[n]];
      DayTotalAppend(days[..n], days[n], hi);
      if hi > 0 { SpanOneMore(days, n, lo, hi - 1); }
    }
  }

  lemma {:induction false} SpanOfNothing(lo: nat, hi: nat)
    ensures SpanTotal([], lo, hi) == 0
  {
    if lo <= hi && hi > 0 { SpanOfNothing(lo, hi - 1); }
  }

  lemma GoalDaysOneMore(days: seq<DayStats>, n: nat, goal: nat)
    requires n < |days|
    ensures GoalMetDays(days[..n + 1], goal)
         == GoalMetDays(days[..n], goal) + if days[n].readingMs >= goal then {days[n].dayOrdinal} else {}
  {
    var s, t := days[..n], days[..n + 1];
    assert t == s + [days[n]];
    forall d | d in GoalMetDays(s, goal) ensures d in GoalMetDays(t, goal) {
      var k :| 0 <= k < |s| && s[k].readingMs >= goal && s[k].dayOrdinal == d;
      assert t[k] == s[k];
    }
    forall d | d in GoalMetDays(t, goal)
      ensures d in GoalMetDays(s, goal) || (d == days[n].dayOrdinal && days[n].readingMs >= goal)
    {
      var k :| 0 <= k < |t| && t[k].readingMs >= goal && t[k].dayOrdinal == d;
      assert k < n ==> s[k] == t[k];
    }
    assert t[n] == days[n];
  }

  lemma DaySetAppend(days: seq<nat>, d: nat)
    ensures DaySet(days + [d]) == DaySet(days) + {d}
  {
    var t := days + [d];
    DaySetGrows(t, |days|);
    assert t[..|days|] == days && t[..|days| + 1] == t;
  }

  // ----- the loops -----

  method SumBooks(books: seq<Book>) returns (totalReadingMs: nat, booksFinishedCount: nat)
    ensures totalReadingMs == TotalTime(books) && booksFinishedCount == Finished(books)
  {
    totalReadingMs, booksFinishedCount := 0, 0;
    for i := 0 to |books|
      invariant totalReadingMs == TotalTime(books[..i]) && booksFinishedCount == Finished(books[..i])
    {
      assert books[..i + 1][..i] == books[..i];
      totalReadingMs := totalReadingMs + books[i].totalReadingMs;
      if books[i].completed { booksFinishedCount := booksFinishedCount + 1; }
    }
    assert books[..|books|] == books;
  }

  method SumSpan(days: seq<DayStats>, lo: nat, hi: nat) returns (totalMs: nat)
    ensures totalMs == SpanTotal(days, lo, hi)
  {
    hide SpanTotal;
    totalMs := 0;
    SpanOfNothing(lo, hi);
    for i := 0 to |days|
      invariant totalMs == SpanTotal(days[..i], lo, hi)
    {
      SpanOneMore(days, i, lo, hi);
      if days[i].dayOrdinal >= lo && days[i].dayOrdinal <= hi {
        totalMs := totalMs + days[i].readingMs;
      }
    }
    assert days[..|days|] == days;
  }

  ghost predicate DaysBefore(eligible: seq<nat>, bound: nat) {
    forall k :: 0 <= k < |eligible| ==> eligible[k] < bound
  }

  lemma EligibleGrows(days: seq<DayStats>, i: nat, goal: nat, eligible: seq<nat>)
    requires Sorted(days) && i < |days|
    requires Increasing(eligible) && DaySet(eligible) == GoalMetDays(days[..i], goal) && DaysBefore(eligible, days[i].dayOrdinal)
    ensures var next := if days[i].readingMs >= goal then eligible + [days[i].dayOrdinal] else eligible;
            && Increasing(next) && DaySet(next) == GoalMetDays(days[..i + 1], goal)
            && (i + 1 < |days| ==> DaysBefore(next, days[i + 1].dayOrdinal))
  {
    hide DaySet, GoalMetDays;
    GoalDaysOneMore(days, i, goal);
    DaySetAppend(eligible, days[i].dayOrdinal);
  }

  // The pass over readingDays: today, the two windows, and the goal-met days.
  method ScanDays(days: seq<DayStats>, referenceDay: nat, goal: nat)
    returns (today: nat, recent7: nat, recent30: nat, eligibleDays: seq<nat>)
    requires Sorted(days)
    ensures today == DayTotal(days, referenceDay)
    ensures recent7 == RecentTime(days, referenceDay, 7) && recent30 == RecentTime(days, referenceDay, 30)
    ensures Increasing(eligibleDays) && DaySet(eligibleDays) == GoalMetDays(days, goal)
  {
    hide SpanTotal, DaySet, GoalMetDays;
    var start7 := if referenceDay >= 6 then referenceDay - 6 else 0;
    var start30 := if referenceDay >= 29 then referenceDay - 29 else 0;
    today, recent7, recent30, eligibleDays := 0, 0, 0, [];
    SpanOfNothing(start7, referenceDay);
    SpanOfNothing(start30, referenceDay);
    NoDays(goal);
    for i := 0 to |days|
      invariant today == DayTotal(days[..i], referenceDay)
      invariant recent7 == SpanTotal(days[..i], start7, referenceDay)
      invariant recent30 == SpanTotal(days[..i], start30, referenceDay)
      invariant Increasing(eligibleDays) && DaySet(eligibleDays) == GoalMetDays(days[..i], goal)
      invariant i < |days| ==> DaysBefore(eligibleDays, days[i].dayOrdinal)
    {
      SpanOneMore(days, i, start7, referenceDay);
      SpanOneMore(days, i, start30, referenceDay);
      TodayOnce(days, i, referenceDay);
      EligibleGrows(days, i, goal, eligibleDays);
      var day := days[i];
      if day.dayOrdinal == referenceDay { today := day.readingMs; }
      if day.dayOrdinal >= start7 && day.dayOrdinal <= referenceDay { recent7 := recent7 + day.readingMs; }
      if day.dayOrdinal >= start30 && day.dayOrdinal <= referenceDay { recent30 := recent30 + day.readingMs; }
      if day.readingMs >= goal { eligibleDays := eligibleDays + [day.dayOrdinal]; }
    }
    assert days[..|days|] == days;
  }

  lemma NoDays(goal: nat)
    ensures DaySet([]) == GoalMetDays([], goal) == {}
  {
  }

  // A sorted list has a day once, so assigning is as good as adding.
  lemma TodayOnce(days: seq<DayStats>, i: nat, d: nat)
    requires Sorted(days) && i < |days|
    ensures DayTotal(days[..i + 1], d) == if days[i].dayOrdinal == d then days[i].readingMs else DayTotal(days[..i], d)
  {
    assert days[..i + 1][..i] == days[..i];
    if days[i].dayOrdinal == d {
      TotalOfAbsentDay(days[..i], d);
    }
  }

  // rebuildSummaryCache, for a reference day and goal.
  method BuildSummary(days: seq<DayStats>, books: seq<Book>, referenceDay: nat, goal: nat) returns (c: SummaryCache)
    requires Sorted(days) && (referenceDay == 0 ==> days == [])
    ensures c.valid && c.referenceDayOrdinal == referenceDay && c.goalReadingMs == goal
    ensures SummaryHolds(c, days, books)
  {
    hide IsLongestRun, IsCurrentStreak, SpanTotal, DaySet, GoalMetDays;
    c := EMPTY_CACHE.(referenceDayOrdinal := referenceDay, goalReadingMs := goal);
    var total, finished := SumBooks(books);
    c := c.(totalReadingMs := total, booksFinishedCount := finished);
    if referenceDay != 0 {
      var today, recent7, recent30, eligibleDays := ScanDays(days, referenceDay, goal);
      var maxStreak := MaxStreak(eligibleDays);
      var currentStreak := CurrentStreak(eligibleDays, referenceDay);
      c := c.(todayReadingMs := today, recent7ReadingMs := recent7, recent30ReadingMs := recent30,
              maxStreakDays := maxStreak, currentStreakDays := currentStreak);
    } else {
      NothingOnRecord(goal);
    }
    c := c.(valid := true);
  }

  lemma NothingOnRecord(goal: nat)
    ensures DayFiguresHold(EMPTY_CACHE.(goalReadingMs := goal), [])
  {
    NoDays(goal);
    SpanOfNothing(0, 0);
  }

  // The day figures depend on nothing but the times: a summary is the only one that holds.
  lemma SummaryUnique(a: SummaryCache, b: SummaryCache, days: seq<DayStats>, books: seq<Book>)
    requires a.valid == b.valid && a.referenceDayOrdinal == b.referenceDayOrdinal && a.goalReadingMs == b.goalReadingMs
    requires SummaryHolds(a, days, books) && SummaryHolds(b, days, books)
    ensures a == b
  {
    hide IsLongestRun, IsCurrentStreak, SpanTotal, GoalMetDays;
    LongestRunUnique(GoalMetDays(days, a.goalReadingMs), a.maxStreakDays, b.maxStreakDays);
    CurrentStreakUnique(GoalMetDays(days, a.goalReadingMs), a.referenceDayOrdinal, a.currentStreakDays, b.currentStreakDays);
  }
}
