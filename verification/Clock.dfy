// Wall-clock and tick arithmetic: valid timestamps, local days and wrapping milliseconds
// (src/util/TimeUtils.cpp, src/ReadingStatsStore.cpp).
module Clock {
  import opened Books

  const VALID_CLOCK_THRESHOLD := 1704016800
  const TICK_RANGE := 0x1_0000_0000

  predicate IsClockValid(epochSeconds: nat) {
    epochSeconds >= VALID_CLOCK_THRESHOLD
  }

  // Time zones as quarter hours from UTC-12.
  const UTC := 48
  const MAX_OFFSET := 104

  // Anything beyond UTC+14 counts as UTC.
  function LocalOffsetSeconds(offsetQ: nat): int {
    ((if offsetQ > MAX_OFFSET then UTC else offsetQ) - UTC) * 15 * 60
  }

  function LocalDay(epochSeconds: nat, offsetQ: nat): nat {
    if !IsClockValid(epochSeconds) then 0 else (epochSeconds + LocalOffsetSeconds(offsetQ)) / 86400
  }

  // No valid clock falls on ordinal 0, which the ledger uses for "no day".
  lemma ValidDaysAreNotZero(epochSeconds: nat, offsetQ: nat)
    ensures IsClockValid(epochSeconds) <==> LocalDay(epochSeconds, offsetQ) != 0
  {
    assert LocalOffsetSeconds(offsetQ) >= -43200;
  }

  // At UTC the day of a valid time is the one whose 86400 seconds hold it.
  lemma UtcDayHoldsTime(t: nat)
    requires IsClockValid(t)
    ensures 86400 * LocalDay(t, UTC) <= t < 86400 * (LocalDay(t, UTC) + 1)
  {
  }

  // A quarter of an hour further east it is as late as it will be 900 seconds later here.
  lemma FurtherEastIsLater(t: nat, offsetQ: nat)
    requires IsClockValid(t) && offsetQ < MAX_OFFSET
    ensures LocalDay(t, offsetQ + 1) == LocalDay(t + 900, offsetQ)
  {
  }

  // So the day at any offset is the one whose seconds hold the local time.
  lemma {:induction false} LocalDayHoldsTime(t: nat, offsetQ: nat)
    requires IsClockValid(t) && offsetQ <= MAX_OFFSET
    ensures 86400 * LocalDay(t, offsetQ) <= t + 900 * (offsetQ - UTC) < 86400 * (LocalDay(t, offsetQ) + 1)
  {
  }

  // Codes that no setting has count as UTC.
  lemma UnknownOffsetIsUtc(t: nat, offsetQ: nat)
    requires offsetQ > MAX_OFFSET
    ensures LocalDay(t, offsetQ) == LocalDay(t, UTC)
  {
  }

  // Later times never fall on earlier days.
  lemma DaysNeverDecrease(t: nat, u: nat, offsetQ: nat)
    requires t <= u
    ensures LocalDay(t, offsetQ) <= LocalDay(u, offsetQ)
  {
    if IsClockValid(t) {
      var o := if offsetQ > MAX_OFFSET then UTC else offsetQ;
      LocalDayHoldsTime(t, o);
      LocalDayHoldsTime(u, o);
      if offsetQ > MAX_OFFSET {
        UnknownOffsetIsUtc(t, offsetQ);
        UnknownOffsetIsUtc(u, offsetQ);
      }
    }
  }

  // Clocks count from the start of 2024, 19723 days after the epoch, in the earliest time zone.
  lemma ValidSince2024(t: nat)
    ensures IsClockValid(t) <==> t + 900 * (MAX_OFFSET - UTC) >= 86400 * 19723
  {
  }

  // millis() - since, in unsigned 32-bit arithmetic.
  function Elapsed(nowMs: nat, sinceMs: nat): nat {
    (nowMs - sinceMs) % TICK_RANGE
  }

  // However often the tick counter has wrapped, a real gap below 2^32 ms is measured exactly.
  lemma ElapsedIsExact(realNow: nat, realSince: nat)
    requires realSince <= realNow < realSince + TICK_RANGE
    ensures Elapsed(realNow % TICK_RANGE, realSince % TICK_RANGE) == realNow - realSince
  {
    var a, b := realNow / TICK_RANGE, realSince / TICK_RANGE;
    var gap, wrapped := realNow - realSince, realNow % TICK_RANGE - realSince % TICK_RANGE;
    assert wrapped == gap - (a - b) * TICK_RANGE;
    assert 0 <= a - b <= 1;
  }

  function Later(a: nat, b: nat): nat {
    if IsClockValid(b) && a < b then b else a
  }

  // getLatestKnownTimestamp.
  function LatestKnown(last: nat, books: seq<Book>): nat {
    if books == [] then last
    else
      var b := books[|books| - 1];
      Later(Later(Later(LatestKnown(last, books[..|books| - 1]), b.lastReadAt), b.completedAt), b.firstReadAt)
  }

  // getReferenceTimestamp: the best clock there is, or 0.
  function ReferenceTimestamp(last: nat, books: seq<Book>, preferred: nat, ofBook: nat): (r: nat)
    ensures r == 0 || IsClockValid(r)
    ensures IsClockValid(preferred) ==> r == preferred
  {
    if IsClockValid(preferred) then preferred
    else if IsClockValid(last) then last
    else if IsClockValid(LatestKnown(last, books)) then LatestKnown(last, books)
    else if IsClockValid(ofBook) then ofBook
    else 0
  }

  // No clock source is passed over: the result is 0 only when none of them is valid, and it never
  // precedes the last known time unless the clock itself says so.
  lemma ReferenceIsBest(last: nat, books: seq<Book>, preferred: nat, ofBook: nat, k: nat)
    requires k < |books| && !IsClockValid(preferred)
    ensures var r := ReferenceTimestamp(last, books, preferred, ofBook);
            && (r == 0 <==> !IsClockValid(last) && !IsClockValid(LatestKnown(last, books)) && !IsClockValid(ofBook))
            && (!IsClockValid(last) && IsClockValid(books[k].lastReadAt) ==> books[k].lastReadAt <= r)
  {
    LatestCoversBook(last, books, k);
  }

  // Clock, last known time, latest time on record, the book's own: the first that is valid.
  lemma ReferenceOrder(last: nat, books: seq<Book>, preferred: nat, ofBook: nat)
    ensures var r := ReferenceTimestamp(last, books, preferred, ofBook);
            && (IsClockValid(preferred) ==> r == preferred)
            && (!IsClockValid(preferred) && IsClockValid(last) ==> r == last)
            && (!IsClockValid(preferred) && !IsClockValid(last) && IsClockValid(LatestKnown(last, books)) ==>
                  r == LatestKnown(last, books))
            && (!IsClockValid(preferred) && !IsClockValid(last) && !IsClockValid(LatestKnown(last, books)) ==>
                  r == if IsClockValid(ofBook) then ofBook else 0)
  {
  }

  // The latest known time is the last known one or a valid time of some book.
  lemma {:induction false} LatestIsSome(last: nat, books: seq<Book>)
    ensures var r := LatestKnown(last, books);
            || r == last
            || (IsClockValid(r)
                && exists k :: 0 <= k < |books| && r in [books[k].lastReadAt, books[k].completedAt, books[k].firstReadAt])
  {
    if books != [] {
      var front, b := books[..|books| - 1], books[|books| - 1];
      LatestIsSome(last, front);
      var r, before := LatestKnown(last, books), LatestKnown(last, front);
      if r == before {
        if r != last {
          var k :| 0 <= k < |front| && r in [front[k].lastReadAt, front[k].completedAt, front[k].firstReadAt];
          assert front[k] == books[k];
        }
      } else {
        assert r in [b.lastReadAt, b.completedAt, b.firstReadAt];
      }
    }
  }

  lemma {:induction false} LatestCoversBook(last: nat, books: seq<Book>, k: nat)
    requires k < |books|
    ensures last <= LatestKnown(last, books)
    ensures var b := books[k]; forall t | t in [b.lastReadAt, b.completedAt, b.firstReadAt] ::
              IsClockValid(t) ==> t <= LatestKnown(last, books)
  {
    if k < |books| - 1 { LatestCoversBook(last, books[..|books| - 1], k); } else { LatestCoversLast(last, books[..k]); }
  }

  lemma {:induction false} LatestCoversLast(last: nat, books: seq<Book>)
    ensures last <= LatestKnown(last, books)
  {
    if books != [] { LatestCoversLast(last, books[..|books| - 1]); }
  }

  method GetLatestKnownTimestamp(last: nat, books: seq<Book>) returns (latest: nat)
    ensures latest == LatestKnown(last, books)
  {
    latest := last;
    for i := 0 to |books|
      invariant latest == LatestKnown(last, books[..i])
    {
      assert books[..i + 1][..i] == books[..i];
      var book := books[i];
      if IsClockValid(book.lastReadAt) { latest := if latest < book.lastReadAt then book.lastReadAt else latest; }
      if IsClockValid(book.completedAt) { latest := if latest < book.completedAt then book.completedAt else latest; }
      if IsClockValid(book.firstReadAt) { latest := if latest < book.firstReadAt then book.firstReadAt else latest; }
    }
    assert books[..|books|] == books;
  }
}
