// Lists of reading time per local day (src/ReadingStatsStore.cpp), and what they add up to.
module ReadingDays {

  datatype DayStats = DayStats(dayOrdinal: nat, readingMs: nat)

  // Strictly by ordinal: the order the lower_bound lookups rely on.
  ghost predicate Sorted(days: seq<DayStats>) {
    forall j, k :: 0 <= j < k < |days| ==> days[j].dayOrdinal < days[k].dayOrdinal
  }

  ghost predicate NoDayZero(days: seq<DayStats>) {
    forall k :: 0 <= k < |days| ==> days[k].dayOrdinal != 0
  }

  // The time of day d, in a list in any order and with repeated days.
  function DayTotal(days: seq<DayStats>, d: nat): nat {
    if days == [] then 0
    else DayTotal(days[..|days| - 1], d) + if days[|days| - 1].dayOrdinal == d then days[|days| - 1].readingMs else 0
  }

  predicate HasDay(days: seq<DayStats>, d: nat) {
    exists k :: 0 <= k < |days| && days[k].dayOrdinal == d
  }

  // ----- adding to a sorted list -----

  // Adds to the entry of day d, creating it in its place.
  function Upsert(days: seq<DayStats>, d: nat, ms: nat): (r: seq<DayStats>) {
    if days == [] || days[|days| - 1].dayOrdinal < d then days + [DayStats(d, ms)]
    else
      var last := days[|days| - 1];
      if last.dayOrdinal == d then days[..|days| - 1] + [DayStats(d, last.readingMs + ms)]
      else Upsert(days[..|days| - 1], d, ms) + [last]
  }

  lemma DayTotalAppend(days: seq<DayStats>, last: DayStats, d: nat)
    ensures DayTotal(days + [last], d) == DayTotal(days, d) + if last.dayOrdinal == d then last.readingMs else 0
  {
    assert (days + [last])[..|days|] == days;
  }

  lemma {:induction false} DayTotalConcat(a: seq<DayStats>, b: seq<DayStats>, d: nat)
    ensures DayTotal(a + b, d) == DayTotal(a, d) + DayTotal(b, d)
  {
    if b == [] {
      assert a + b == a;
    } else {
      var front, last := b[..|b| - 1], b[|b| - 1];
      assert a + b == (a + front) + [last];
      DayTotalConcat(a, front, d);
      DayTotalAppend(a + front, last, d);
    }
  }

  lemma {:induction false} UpsertTotal(days: seq<DayStats>, d: nat, ms: nat, e: nat)
    ensures DayTotal(Upsert(days, d, ms), e) == DayTotal(days, e) + if e == d then ms else 0
  {
    if days == [] || days[|days| - 1].dayOrdinal < d {
      DayTotalAppend(days, DayStats(d, ms), e);
    } else {
      var front, last := days[..|days| - 1], days[|days| - 1];
      if last.dayOrdinal == d {
        DayTotalAppend(front, DayStats(d, last.readingMs + ms), e);
      } else {
        UpsertTotal(front, d, ms, e);
        DayTotalAppend(Upsert(front, d, ms), last, e);
      }
    }
  }

  lemma {:induction false} UpsertHas(days: seq<DayStats>, d: nat, ms: nat, e: nat)
    ensures HasDay(Upsert(days, d, ms), e) <==> HasDay(days, e) || e == d
  {
    if days == [] || days[|days| - 1].dayOrdinal < d {
      HasAppend(days, DayStats(d, ms), e);
    } else {
      var front, last := days[..|days| - 1], days[|days| - 1];
      assert days == front + [last];
      HasAppend(front, last, e);
      if last.dayOrdinal == d {
        HasAppend(front, DayStats(d, last.readingMs + ms), e);
      } else {
        UpsertHas(front, d, ms, e);
        HasAppend(Upsert(front, d, ms), last, e);
      }
    }
  }

  lemma HasAppend(days: seq<DayStats>, last: DayStats, e: nat)
    ensures HasDay(days + [last], e) <==> HasDay(days, e) || last.dayOrdinal == e
  {
    if HasDay(days, e) {
      var k :| 0 <= k < |days| && days[k].dayOrdinal == e;
      assert (days + [last])[k].dayOrdinal == e;
    }
    assert (days + [last])[|days|] == last;
  }

  lemma {:induction false} UpsertSorted(days: seq<DayStats>, d: nat, ms: nat)
    requires Sorted(days)
    ensures Sorted(Upsert(days, d, ms))
    ensures forall k :: 0 <= k < |Upsert(days, d, ms)| ==>
              Upsert(days, d, ms)[k].dayOrdinal == d || HasDay(days, Upsert(days, d, ms)[k].dayOrdinal)
  {
    var r := Upsert(days, d, ms);
    if days != [] && days[|days| - 1].dayOrdinal > d {
      var front, last := days[..|days| - 1], days[|days| - 1];
      UpsertSorted(front, d, ms);
      forall k | 0 <= k < |r| - 1 ensures r[k].dayOrdinal < last.dayOrdinal {
        var u := Upsert(front, d, ms);
        assert r[k] == u[k];
      }
    }
    forall k | 0 <= k < |r| ensures r[k].dayOrdinal == d || HasDay(days, r[k].dayOrdinal) {
      assert HasDay(r, r[k].dayOrdinal);
      UpsertHas(days, d, ms, r[k].dayOrdinal);
    }
  }

  lemma HasDayPositive(days: seq<DayStats>)
    ensures NoDayZero(days) <==> !HasDay(days, 0)
  {
  }

  // The place of the first entry not before day d (std::lower_bound).
  method LowerBoundDay(days: seq<DayStats>, d: nat) returns (it: nat)
    requires Sorted(days)
    ensures it <= |days|
    ensures forall k :: 0 <= k < it ==> days[k].dayOrdinal < d
    ensures forall k :: it <= k < |days| ==> days[k].dayOrdinal >= d
  {
    var lo, hi := 0, |days|;
    while lo < hi
      invariant 0 <= lo <= hi <= |days|
      invariant forall k :: 0 <= k < lo ==> days[k].dayOrdinal < d
      invariant forall k :: hi <= k < |days| ==> days[k].dayOrdinal >= d
    {
      var mid := (lo + hi) / 2;
      if days[mid].dayOrdinal < d { lo := mid + 1; } else { hi := mid; }
    }
    return lo;
  }

  lemma {:induction false} UpsertAt(days: seq<DayStats>, d: nat, ms: nat, it: nat)
    requires Sorted(days) && it <= |days|
    requires forall k :: 0 <= k < it ==> days[k].dayOrdinal < d
    requires forall k :: it <= k < |days| ==> days[k].dayOrdinal >= d
    ensures Upsert(days, d, ms)
         == if it < |days| && days[it].dayOrdinal == d then days[it := DayStats(d, days[it].readingMs + ms)]
            else days[..it] + [DayStats(d, ms)] + days[it..]
  {
    if it < |days| {
      var front, last := days[..|days| - 1], days[|days| - 1];
      assert it < |days| - 1 ==> days[it].dayOrdinal < last.dayOrdinal;
      if last.dayOrdinal > d {
        UpsertAt(front, d, ms, it);
        assert days[..it] == front[..it] && days[it..] == front[it..] + [last];
      }
    }
  }

  // getOrCreateReadingDay(...).readingMs += ms, for a list and a day.
  method CreditDay(days: seq<DayStats>, dayOrdinal: nat, ms: nat) returns (r: seq<DayStats>)
    requires Sorted(days)
    ensures r == Upsert(days, dayOrdinal, ms)
  {
    var it := LowerBoundDay(days, dayOrdinal);
    UpsertAt(days, dayOrdinal, ms, it);
    r := days;
    if it == |r| || r[it].dayOrdinal != dayOrdinal {
      r := r[..it] + [DayStats(dayOrdinal, 0)] + r[it..];
    }
    r := r[it := r[it].(readingMs := r[it].readingMs + ms)];
  }

  // addReadingToDays: nothing is recorded for day 0 or for no time.
  function Added(days: seq<DayStats>, d: nat, ms: nat): seq<DayStats> {
    if d == 0 || ms == 0 then days else Upsert(days, d, ms)
  }

  method AddReadingToDays(days: seq<DayStats>, dayOrdinal: nat, readingMs: nat) returns (r: seq<DayStats>)
    requires Sorted(days)
    ensures r == Added(days, dayOrdinal, readingMs)
  {
    if dayOrdinal == 0 || readingMs == 0 { return days; }
    var it := LowerBoundDay(days, dayOrdinal);
    UpsertAt(days, dayOrdinal, readingMs, it);
    if it == |days| || days[it].dayOrdinal != dayOrdinal {
      r := days[..it] + [DayStats(dayOrdinal, readingMs)] + days[it..];
    } else {
      r := days[it := days[it].(readingMs := days[it].readingMs + readingMs)];
    }
  }

  lemma AddedMeans(days: seq<DayStats>, d: nat, ms: nat, e: nat)
    requires Sorted(days)
    ensures Sorted(Added(days, d, ms))
    ensures e != 0 ==> DayTotal(Added(days, d, ms), e) == DayTotal(days, e) + if e == d then ms else 0
    ensures NoDayZero(days) ==> NoDayZero(Added(days, d, ms))
  {
    if d != 0 && ms != 0 {
      UpsertTotal(days, d, ms, e);
      UpsertSorted(days, d, ms);
      UpsertHas(days, d, ms, 0);
      HasDayPositive(days);
      HasDayPositive(Upsert(days, d, ms));
    }
  }

  // ----- normalising -----

  // The list with its days merged and in order.
  function Normalized(days: seq<DayStats>): seq<DayStats> {
    if days == [] then [] else Upsert(Normalized(days[..|days| - 1]), days[|days| - 1].dayOrdinal, days[|days| - 1].readingMs)
  }

  // Normalising sorts, and changes neither which days there are nor the time of any.
  lemma {:induction false} NormalizedMeans(days: seq<DayStats>)
    ensures Sorted(Normalized(days))
    ensures forall d :: DayTotal(Normalized(days), d) == DayTotal(days, d)
    ensures forall d :: HasDay(Normalized(days), d) <==> HasDay(days, d)
  {
    if days != [] {
      var front, last := days[..|days| - 1], days[|days| - 1];
      NormalizedMeans(front);
      UpsertSorted(Normalized(front), last.dayOrdinal, last.readingMs);
      assert days == front + [last];
      forall d ensures DayTotal(Normalized(days), d) == DayTotal(days, d) {
        UpsertTotal(Normalized(front), last.dayOrdinal, last.readingMs, d);
      }
      forall d ensures HasDay(Normalized(days), d) <==> HasDay(days, d) {
        UpsertHas(Normalized(front), last.dayOrdinal, last.readingMs, d);
        HasAppend(front, last, d);
      }
    }
  }

  lemma {:induction false} TotalOfAbsentDay(days: seq<DayStats>, d: nat)
    requires !HasDay(days, d)
    ensures DayTotal(days, d) == 0
  {
    if days != [] {
      var front, last := days[..|days| - 1], days[|days| - 1];
      assert days == front + [last];
      HasAppend(front, last, d);
      TotalOfAbsentDay(front, d);
    }
  }

  lemma TotalOfLastDay(days: seq<DayStats>)
    requires Sorted(days) && days != []
    ensures DayTotal(days, days[|days| - 1].dayOrdinal) == days[|days| - 1].readingMs
    ensures !HasDay(days[..|days| - 1], days[|days| - 1].dayOrdinal)
  {
    TotalOfAbsentDay(days[..|days| - 1], days[|days| - 1].dayOrdinal);
  }

  // A sorted list is determined by its days and their times.
  lemma {:induction false} SortedUnique(a: seq<DayStats>, b: seq<DayStats>)
    requires Sorted(a) && Sorted(b)
    requires forall d :: DayTotal(a, d) == DayTotal(b, d)
    requires forall d :: HasDay(a, d) <==> HasDay(b, d)
    ensures a == b
  {
    if a == [] {
      if b != [] { assert HasDay(b, b[0].dayOrdinal); }
    } else {
      var fa, la := a[..|a| - 1], a[|a| - 1];
      assert HasDay(a, la.dayOrdinal);
      assert b != [];
      var fb, lb := b[..|b| - 1], b[|b| - 1];
      assert HasDay(b, lb.dayOrdinal);
      assert la.dayOrdinal == lb.dayOrdinal;
      TotalOfLastDay(a);
      TotalOfLastDay(b);
      assert la == lb;
      assert a == fa + [la] && b == fb + [lb];
      forall d ensures DayTotal(fa, d) == DayTotal(fb, d) {
        assert DayTotal(a, d) == DayTotal(b, d);
      }
      forall d ensures HasDay(fa, d) <==> HasDay(fb, d) {
        HasAppend(fa, la, d);
        HasAppend(fb, lb, d);
      }
      SortedUnique(fa, fb);
    }
  }

  lemma {:induction false} SameMultisetSameTotals(a: seq<DayStats>, b: seq<DayStats>, d: nat)
    requires multiset(a) == multiset(b)
    ensures DayTotal(a, d) == DayTotal(b, d)
    ensures HasDay(a, d) <==> HasDay(b, d)
    decreases |a|
  {
    if a == [] {
      assert |multiset(b)| == 0;
    } else {
      var front, last := a[..|a| - 1], a[|a| - 1];
      assert a == front + [last];
      assert last in multiset(b);
      var j :| 0 <= j < |b| && b[j] == last;
      var c, e := b[..j], b[j + 1..];
      assert b == c + [last] + e;
      SameRest(a, b, front, c, last, e);
      SameMultisetSameTotals(front, c + e, d);
      DayTotalConcat(c + [last], e, d);
      DayTotalAppend(c, last, d);
      DayTotalConcat(c, e, d);
      HasAppend(front, last, d);
      HasSplit(c, last, e, d);
    }
  }

  lemma SameRest(a: seq<DayStats>, b: seq<DayStats>, front: seq<DayStats>, c: seq<DayStats>, last: DayStats, e: seq<DayStats>)
    requires a == front + [last] && b == c + [last] + e && multiset(a) == multiset(b)
    ensures multiset(front) == multiset(c + e)
  {
    assert multiset(a) == multiset(front) + multiset{last};
    assert multiset(b) == multiset(c) + multiset{last} + multiset(e);
    assert multiset(front) == multiset(a) - multiset{last};
    assert multiset(c + e) == multiset(b) - multiset{last};
  }

  lemma HasSplit(c: seq<DayStats>, last: DayStats, e: seq<DayStats>, d: nat)
    ensures HasDay(c + [last] + e, d) <==> HasDay(c + e, d) || last.dayOrdinal == d
  {
    var whole, rest := c + [last] + e, c + e;
    if k :| 0 <= k < |rest| && rest[k].dayOrdinal == d {
      assert whole[if k < |c| then k else k + 1].dayOrdinal == d;
    }
    if k :| 0 <= k < |whole| && whole[k].dayOrdinal == d {
      assert k == |c| || rest[if k < |c| then k else k - 1].dayOrdinal == d;
    }
    assert whole[|c|] == last;
  }

  ghost predicate WeaklySorted(days: seq<DayStats>) {
    forall j, k :: 0 <= j < k < |days| ==> days[j].dayOrdinal <= days[k].dayOrdinal
  }

  lemma NothingOrdered()
    ensures WeaklySorted([])
  {
  }

  lemma InsertOrdered(r: seq<DayStats>, it: nat, day: DayStats)
    requires WeaklySorted(r) && it <= |r|
    requires forall k :: 0 <= k < it ==> r[k].dayOrdinal <= day.dayOrdinal
    requires it < |r| ==> day.dayOrdinal < r[it].dayOrdinal
    ensures WeaklySorted(r[..it] + [day] + r[it..])
    ensures multiset(r[..it] + [day] + r[it..]) == multiset(r) + multiset{day}
  {
    assert r == r[..it] + r[it..];
  }

  // std::sort by ordinal: some ordered rearrangement.
  method SortDays(days: seq<DayStats>) returns (r: seq<DayStats>)
    ensures WeaklySorted(r) && multiset(r) == multiset(days)
  {
    hide WeaklySorted;
    r := [];
    NothingOrdered();
    for i := 0 to |days|
      invariant WeaklySorted(r) && multiset(r) == multiset(days[..i])
    {
      var it := 0;
      while it < |r| && r[it].dayOrdinal <= days[i].dayOrdinal
        invariant 0 <= it <= |r|
        invariant forall k :: 0 <= k < it ==> r[k].dayOrdinal <= days[i].dayOrdinal
      {
        it := it + 1;
      }
      assert days[..i + 1] == days[..i] + [days[i]];
      InsertOrdered(r, it, days[i]);
      r := r[..it] + [days[i]] + r[it..];
    }
    assert days[..|days|] == days;
  }

  // normalizeReadingDays: sort, then merge neighbours of the same day.
  method NormalizeReadingDays(days: seq<DayStats>) returns (mergedDays: seq<DayStats>)
    ensures mergedDays == Normalized(days)
  {
    var sorted := SortDays(days);
    mergedDays := [];
    for i := 0 to |sorted|
      invariant mergedDays == Normalized(sorted[..i])
      invariant i > 0 ==> mergedDays != [] && mergedDays[|mergedDays| - 1].dayOrdinal == sorted[i - 1].dayOrdinal
    {
      var day := sorted[i];
      assert sorted[..i + 1][..i] == sorted[..i];
      if mergedDays != [] && mergedDays[|mergedDays| - 1].dayOrdinal == day.dayOrdinal {
        var last := mergedDays[|mergedDays| - 1];
        mergedDays := mergedDays[..|mergedDays| - 1] + [last.(readingMs := last.readingMs + day.readingMs)];
      } else {
        mergedDays := mergedDays + [day];
      }
    }
    assert sorted[..|sorted|] == sorted;
    SameMultisetNormalized(days, sorted);
  }

  // The order of the input does not matter.
  lemma SameMultisetNormalized(a: seq<DayStats>, b: seq<DayStats>)
    requires multiset(a) == multiset(b)
    ensures Normalized(a) == Normalized(b)
  {
    NormalizedMeans(a);
    NormalizedMeans(b);
    forall d ensures DayTotal(Normalized(a), d) == DayTotal(Normalized(b), d) {
      SameMultisetSameTotals(a, b, d);
    }
    forall d ensures HasDay(Normalized(a), d) <==> HasDay(Normalized(b), d) {
      SameMultisetSameTotals(a, b, d);
    }
    SortedUnique(Normalized(a), Normalized(b));
  }

  lemma NormalizedNoDayZero(days: seq<DayStats>)
    requires NoDayZero(days)
    ensures NoDayZero(Normalized(days))
  {
    NormalizedMeans(days);
    HasDayPositive(days);
    HasDayPositive(Normalized(days));
  }
}
