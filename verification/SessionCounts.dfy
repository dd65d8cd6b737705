// Which reports of finished sessions AchievementsStore::recordSessionEnded accepts
// (src/AchievementsStore.cpp): those whose serial is not the one accepted last.
module SessionCounts {
  import opened StoreSteps

  // What the surroundings answer while a session is recorded: settings, the reference time, the
  // local offset, today's reading and the goal.
  datatype Moment = Moment(achievementsEnabled: bool, popups: bool, timestamp: nat, offsetQ: nat, todayReadingMs: nat, goalMs: nat)

  datatype Report = Report(snapshot: Snapshot, moment: Moment)

  // A report that counts for something: achievements are on, and the session has a serial and a book.
  predicate Eligible(r: Report) {
    && r.moment.achievementsEnabled && r.snapshot.valid && r.snapshot.serial != 0
    && !(r.snapshot.bookId == "" && r.snapshot.path == "")
  }

  // A report counts for nothing exactly if achievements are off, or its session is invalid, has no serial, or
  // belongs to no book.
  lemma EligibleExact(r: Report)
    ensures !Eligible(r)
       <==> || !r.moment.achievementsEnabled || !r.snapshot.valid || r.snapshot.serial == 0
            || (|r.snapshot.bookId| == 0 && |r.snapshot.path| == 0)
  {
  }

  // A report that recordSessionEnded accepts: one that counts, of another serial than the last.
  predicate Acceptable(r: Report, lastSerial: nat) {
    Eligible(r) && r.snapshot.serial != lastSerial
  }

  // The serial last processed after these reports, and the day events of those that count.
  function LastSerial(serial: nat, reports: seq<Report>): nat {
    if reports == [] then serial
    else
      var before, r := LastSerial(serial, reports[..|reports| - 1]), reports[|reports| - 1];
      if Acceptable(r, before) then r.snapshot.serial else before
  }

  function TimeReported(serial: nat, reports: seq<Report>): nat {
    if reports == [] then 0
    else
      var front, r := reports[..|reports| - 1], reports[|reports| - 1];
      TimeReported(serial, front) + if Acceptable(r, LastSerial(serial, front)) then r.snapshot.sessionMs else 0
  }

  // A session reported again and again is counted the first time only.
  lemma {:induction false} RepeatsCountOnce(serial: nat, r: Report, times: nat)
    requires Acceptable(r, serial)
    ensures var reports := seq(times, _ => r);
            && TimeReported(serial, reports) == (if times == 0 then 0 else r.snapshot.sessionMs)
            && LastSerial(serial, reports) == (if times == 0 then serial else r.snapshot.serial)
  {
    if times > 0 {
      RepeatsCountOnce(serial, r, times - 1);
      assert seq(times, _ => r)[..times - 1] == seq(times - 1, _ => r);
    }
  }

  // ----- once and only once -----

  predicate Accepted(reports: seq<Report>, i: nat)
    requires i < |reports|
  {
    Acceptable(reports[i], LastSerial(0, reports[..i]))
  }

  function SerialAt(reports: seq<Report>, i: nat): nat
    requires i < |reports|
  {
    reports[i].snapshot.serial
  }

  predicate SameSerial(reports: seq<Report>, i: nat, j: nat)
    requires i < |reports| && j < |reports|
  {
    Eligible(reports[i]) && Eligible(reports[j]) && SerialAt(reports, i) == SerialAt(reports, j)
  }

  // The eligible reports of one serial are not interrupted by another.
  ghost predicate OneBlock(reports: seq<Report>) {
    forall i, k, j :: 0 <= i < k < j < |reports| && SameSerial(reports, i, j) && Eligible(reports[k]) ==>
                        SerialAt(reports, k) == SerialAt(reports, i)
  }

  // Different sessions have different serials.
  ghost predicate SerialsIdentify(reports: seq<Report>) {
    forall i, j :: 0 <= i < j < |reports| && SameSerial(reports, i, j) ==> reports[i].snapshot == reports[j].snapshot
  }

  ghost predicate FirstOfSerial(reports: seq<Report>, i: nat)
    requires i < |reports|
  {
    forall j :: 0 <= j < i && Eligible(reports[j]) ==> SerialAt(reports, j) != SerialAt(reports, i)
  }

  ghost predicate FirstOfSession(reports: seq<Report>, i: nat)
    requires i < |reports|
  {
    forall j :: 0 <= j < i && Eligible(reports[j]) ==> reports[j].snapshot != reports[i].snapshot
  }

  // A report is accepted if and only if it is the first one of its serial.
  ghost predicate EachSerialOnce(reports: seq<Report>) {
    forall i :: 0 <= i < |reports| && Eligible(reports[i]) ==> (Accepted(reports, i) <==> FirstOfSerial(reports, i))
  }

  // A report is accepted if and only if it is the first one of its session.
  ghost predicate EachSessionOnce(reports: seq<Report>) {
    forall i :: 0 <= i < |reports| && Eligible(reports[i]) ==> (Accepted(reports, i) <==> FirstOfSession(reports, i))
  }

  // l is the last eligible report before i.
  ghost predicate Latest(reports: seq<Report>, i: nat, l: nat)
    requires i <= |reports|
  {
    l < i && Eligible(reports[l]) && forall k :: l < k < i ==> !Eligible(reports[k])
  }

  // The serial remembered is that of the latest eligible report, accepted or not.
  lemma {:induction false} RememberedSerial(reports: seq<Report>, i: nat) returns (l: int)
    requires i <= |reports|
    ensures l < i && (l >= 0 ==> Latest(reports, i, l) && LastSerial(0, reports[..i]) == SerialAt(reports, l))
    ensures l < 0 ==> LastSerial(0, reports[..i]) == 0 && forall k :: 0 <= k < i ==> !Eligible(reports[k])
  {
    if i == 0 {
      l := -1;
    } else {
      assert reports[..i][..i - 1] == reports[..i - 1];
      l := RememberedSerial(reports, i - 1);
      if Eligible(reports[i - 1]) { l := i - 1; }
    }
  }

  // If a serial comes back after another one, some report of it is accepted again.
  lemma {:induction false} ComesBack(reports: seq<Report>, i: nat, k: nat, j: nat) returns (again: nat)
    requires i < k < j < |reports| && Eligible(reports[i]) && Eligible(reports[k]) && Eligible(reports[j])
    requires SerialAt(reports, i) == SerialAt(reports, j) != SerialAt(reports, k)
    ensures k < again < |reports| && Eligible(reports[again]) && Accepted(reports, again)
    ensures SerialAt(reports, again) == SerialAt(reports, i)
    decreases j
  {
    hide LastSerial;
    var l := RememberedSerial(reports, j);
    if SerialAt(reports, l) == SerialAt(reports, j) {
      again := ComesBack(reports, i, k, l);
    } else {
      again := j;
    }
  }

  // Every serial is accepted once and only once if and only if its reports form one block.
  lemma SerialsCountOnce(reports: seq<Report>)
    ensures EachSerialOnce(reports) <==> OneBlock(reports)
  {
    hide LastSerial, Eligible;
    if OneBlock(reports) {
      forall i | 0 <= i < |reports| && Eligible(reports[i]) ensures Accepted(reports, i) <==> FirstOfSerial(reports, i) {
        BlockStart(reports, i);
      }
    } else {
      var i, k, j :| 0 <= i < k < j < |reports| && SameSerial(reports, i, j) && Eligible(reports[k])
                     && SerialAt(reports, k) != SerialAt(reports, i);
      var again := ComesBack(reports, i, k, j);
      assert !FirstOfSerial(reports, again);
    }
  }

  lemma BlockStart(reports: seq<Report>, i: nat)
    requires OneBlock(reports) && i < |reports| && Eligible(reports[i])
    ensures Accepted(reports, i) <==> FirstOfSerial(reports, i)
  {
    hide LastSerial;
    var l := RememberedSerial(reports, i);
    if l >= 0 && SerialAt(reports, l) != SerialAt(reports, i) {
      forall j | 0 <= j < i && Eligible(reports[j]) ensures SerialAt(reports, j) != SerialAt(reports, i) {
        if SameSerial(reports, j, i) { assert j <= l; }
      }
    }
  }

  lemma {:induction false} FirstReport(reports: seq<Report>, i: nat) returns (f: nat)
    requires i < |reports| && Eligible(reports[i])
    ensures f <= i && Eligible(reports[f]) && reports[f].snapshot == reports[i].snapshot && FirstOfSession(reports, f)
    decreases i
  {
    hide Eligible;
    if FirstOfSession(reports, i) {
      f := i;
    } else {
      var j :| 0 <= j < i && Eligible(reports[j]) && reports[j].snapshot == reports[i].snapshot;
      f := FirstReport(reports, j);
    }
  }

  lemma SameFirsts(reports: seq<Report>, i: nat)
    requires SerialsIdentify(reports) && i < |reports| && Eligible(reports[i])
    ensures FirstOfSession(reports, i) <==> FirstOfSerial(reports, i)
  {
    hide Eligible;
    if FirstOfSession(reports, i) {
      forall j | 0 <= j < i && Eligible(reports[j]) ensures SerialAt(reports, j) != SerialAt(reports, i) {
        if SameSerial(reports, j, i) { assert false; }
      }
    }
  }

  lemma OneFirst(reports: seq<Report>, f: nat, g: nat)
    requires f < |reports| && g < |reports| && SameSerial(reports, f, g)
    requires FirstOfSerial(reports, f) && FirstOfSerial(reports, g)
    ensures f == g
  {
  }

  lemma OneLatest(reports: seq<Report>, i: nat, l: nat, m: nat)
    requires i <= |reports| && Latest(reports, i, l) && Latest(reports, i, m)
    ensures l == m
  {
    hide Eligible;
  }

  // A report shows the serial of the eligible report before it if and only if its session has been
  // reported before.
  ghost predicate SerialsTellSessions(reports: seq<Report>) {
    forall i, l :: 0 <= l < i < |reports| && Eligible(reports[i]) && Latest(reports, i, l) ==>
                     (SerialAt(reports, i) == SerialAt(reports, l) <==> !FirstOfSession(reports, i))
  }

  // A report is accepted unless it shows the serial of the eligible report before it.
  lemma AcceptedAfter(reports: seq<Report>, i: nat, l: nat)
    requires i < |reports| && Eligible(reports[i]) && Latest(reports, i, l)
    ensures Accepted(reports, i) <==> SerialAt(reports, i) != SerialAt(reports, l)
  {
    hide LastSerial;
    var m := RememberedSerial(reports, i);
    if m >= 0 { OneLatest(reports, i, l, m); }
  }

  lemma SomeLatest(reports: seq<Report>, i: nat) returns (l: int)
    requires i < |reports| && Eligible(reports[i])
    ensures l < i && (l >= 0 ==> Latest(reports, i, l))
    ensures l < 0 ==> Accepted(reports, i) && FirstOfSession(reports, i)
  {
    hide LastSerial;
    l := RememberedSerial(reports, i);
  }

  // Every session is accepted once and only once if and only if a serial tells whether the session has
  // been reported before.
  lemma SessionsCountOnce(reports: seq<Report>)
    ensures EachSessionOnce(reports) <==> SerialsTellSessions(reports)
  {
    hide Accepted, FirstOfSession, Eligible, Latest;
    forall i, l | 0 <= l < i < |reports| && Eligible(reports[i]) && Latest(reports, i, l)
      ensures Accepted(reports, i) <==> SerialAt(reports, i) != SerialAt(reports, l)
    {
      AcceptedAfter(reports, i, l);
    }
    if SerialsTellSessions(reports) {
      forall i | 0 <= i < |reports| && Eligible(reports[i]) ensures Accepted(reports, i) <==> FirstOfSession(reports, i) {
        var l := SomeLatest(reports, i);
      }
    }
  }

  // Serials may come back after a restart without harm: sessions with serials 1, 2 and 1 again count once each.
  lemma SerialMayComeBack(a: Report, b: Report, c: Report)
    requires Eligible(a) && Eligible(b) && Eligible(c)
    requires a.snapshot.serial == c.snapshot.serial != b.snapshot.serial && a.snapshot != c.snapshot
    ensures !OneBlock([a, b, c]) && !SerialsIdentify([a, b, c]) && EachSessionOnce([a, b, c])
  {
    var reports := [a, b, c];
    assert SameSerial(reports, 0, 2);
    assert SerialAt(reports, 1) != SerialAt(reports, 0);
    forall i, l | 0 <= l < i < |reports| && Eligible(reports[i]) && Latest(reports, i, l)
      ensures SerialAt(reports, i) == SerialAt(reports, l) <==> !FirstOfSession(reports, i)
    {
      assert l == i - 1;
    }
    SessionsCountOnce(reports);
  }

  // If the reports of every serial form one block, that is the same as saying that no two sessions
  // share a serial.
  lemma SessionsCountOnceInBlocks(reports: seq<Report>)
    requires OneBlock(reports)
    ensures EachSessionOnce(reports) <==> SerialsIdentify(reports)
  {
    hide Accepted, OneBlock, FirstOfSerial, FirstOfSession, Eligible;
    SerialsCountOnce(reports);
    if SerialsIdentify(reports) {
      forall i | 0 <= i < |reports| && Eligible(reports[i]) ensures Accepted(reports, i) <==> FirstOfSession(reports, i) {
        SameFirsts(reports, i);
      }
    } else if EachSessionOnce(reports) {
      var i, j :| 0 <= i < j < |reports| && SameSerial(reports, i, j) && reports[i].snapshot != reports[j].snapshot;
      var f := FirstReport(reports, i);
      var g := FirstReport(reports, j);
      OneFirst(reports, f, g);
    }
  }

  // The time of all sessions reported, each taken once.
  ghost function TimeOfSessions(reports: seq<Report>): nat {
    if reports == [] then 0
    else
      var last := |reports| - 1;
      TimeOfSessions(reports[..last])
      + if Eligible(reports[last]) && FirstOfSession(reports, last) then reports[last].snapshot.sessionMs else 0
  }

  lemma OncePrefix(reports: seq<Report>)
    requires EachSessionOnce(reports) && reports != []
    ensures EachSessionOnce(reports[..|reports| - 1])
  {
    hide LastSerial, Eligible, Acceptable;
    var front := reports[..|reports| - 1];
    forall i | 0 <= i < |front| && Eligible(front[i]) ensures Accepted(front, i) <==> FirstOfSession(front, i) {
      SamePrefix(reports, i);
    }
  }

  lemma SamePrefix(reports: seq<Report>, i: nat)
    requires i < |reports| - 1
    ensures var front := reports[..|reports| - 1];
            && (Accepted(front, i) <==> Accepted(reports, i))
            && (FirstOfSession(front, i) <==> FirstOfSession(reports, i))
  {
    hide LastSerial, Eligible, Acceptable;
    var front := reports[..|reports| - 1];
    assert front[..i] == reports[..i];
    if FirstOfSession(front, i) {
      forall j | 0 <= j < i && Eligible(reports[j]) ensures reports[j].snapshot != reports[i].snapshot {
        assert front[j] == reports[j];
      }
    }
  }

  lemma {:induction false} SessionsAddOnce(reports: seq<Report>)
    requires EachSessionOnce(reports)
    ensures TimeReported(0, reports) == TimeOfSessions(reports)
  {
    hide LastSerial, Eligible, FirstOfSession, Acceptable;
    if reports != [] {
      var last := |reports| - 1;
      OncePrefix(reports);
      SessionsAddOnce(reports[..last]);
      AcceptedIsEligible(reports[last], LastSerial(0, reports[..last]));
      assert Accepted(reports, last) <==> Acceptable(reports[last], LastSerial(0, reports[..last]));
    }
  }

  lemma AcceptedIsEligible(r: Report, last: nat)
    ensures Acceptable(r, last) <==> Eligible(r) && r.snapshot.serial != last
  {
  }

  // A session is not confused with the one before it, as long as the counter is not started over.
  lemma SerialsAdvance(serial: nat)
    requires serial < 0x1_0000_0000
    ensures NextSerial(serial) != serial && NextSerial(serial) < 0x1_0000_0000
    ensures NextSerial(serial) == 0 <==> serial == 0xFFFF_FFFF
  {
  }

  // ----- the serials the statistics store hands out -----

  // Each ended session gets the next serial; restarted tells before which of them the counter was started over.
  predicate SerialFollows(reports: seq<Report>, restarted: seq<bool>, k: nat)
    requires k < |reports| == |restarted|
  {
    SerialAt(reports, k) == if k == 0 || restarted[k] then NextSerial(0) else NextSerial(SerialAt(reports, k - 1))
  }

  // Different sessions, each reported once, with the serials they were given.
  ghost predicate HandedOut(reports: seq<Report>, restarted: seq<bool>)
    requires |reports| == |restarted|
  {
    && (forall k :: 0 <= k < |reports| ==> Eligible(reports[k]) && reports[k].snapshot.serial < 0x1_0000_0000)
    && (forall k :: 0 <= k < |reports| ==> FirstOfSession(reports, k))
    && (forall k :: 0 <= k < |reports| ==> SerialFollows(reports, restarted, k))
  }

  // Without a restart the serials count up from 1.
  lemma SerialsCountUp(reports: seq<Report>, restarted: seq<bool>)
    requires |reports| == |restarted| < 0xFFFF_FFFF && forall k :: 0 < k < |reports| ==> !restarted[k]
    requires forall k :: 0 <= k < |reports| ==> Eligible(reports[k]) && FirstOfSession(reports, k)
    ensures HandedOut(reports, restarted) <==> forall k :: 0 <= k < |reports| ==> SerialAt(reports, k) == k + 1
  {
    hide Eligible, FirstOfSession;
    if HandedOut(reports, restarted) {
      forall k | 0 <= k < |reports| ensures SerialAt(reports, k) == k + 1 { CountedUp(reports, restarted, k); }
    }
    if forall k :: 0 <= k < |reports| ==> SerialAt(reports, k) == k + 1 {
      forall k | 0 <= k < |reports| ensures reports[k].snapshot.serial == k + 1 { assert SerialAt(reports, k) == k + 1; }
      forall k | 0 <= k < |reports| ensures SerialFollows(reports, restarted, k) {
        if k > 0 { assert SerialAt(reports, k - 1) == k; }
      }
    }
  }

  lemma {:induction false} CountedUp(reports: seq<Report>, restarted: seq<bool>, k: nat)
    requires k < |reports| == |restarted| < 0xFFFF_FFFF && HandedOut(reports, restarted)
    requires forall j :: 0 < j < |reports| ==> !restarted[j]
    ensures SerialAt(reports, k) == k + 1
  {
    hide Eligible, FirstOfSession;
    assert SerialFollows(reports, restarted, k);
    if k > 0 { CountedUp(reports, restarted, k - 1); }
  }

  predicate HarmlessRestart(reports: seq<Report>, restarted: seq<bool>, k: nat)
    requires 0 < k < |reports| == |restarted|
  {
    restarted[k] ==> SerialAt(reports, k - 1) != 1
  }

  lemma HarmlessOrRepeated(reports: seq<Report>, restarted: seq<bool>, k: nat)
    requires 0 < k < |reports| == |restarted| && HandedOut(reports, restarted)
    ensures SerialAt(reports, k) == SerialAt(reports, k - 1) <==> !HarmlessRestart(reports, restarted, k)
  {
    hide Eligible, FirstOfSession;
    assert SerialFollows(reports, restarted, k) && reports[k - 1].snapshot.serial < 0x1_0000_0000;
    SerialsAdvance(SerialAt(reports, k - 1));
  }

  // Every session of the store counts once if and only if the counter is never started over right after
  // a session with serial 1.
  lemma RestartsAreHarmless(reports: seq<Report>, restarted: seq<bool>)
    requires |reports| == |restarted| && HandedOut(reports, restarted)
    ensures EachSessionOnce(reports) <==> forall k :: 0 < k < |reports| ==> HarmlessRestart(reports, restarted, k)
  {
    hide Eligible, FirstOfSession, SerialFollows, HarmlessRestart, EachSessionOnce, Latest;
    SessionsCountOnce(reports);
    forall i, l | 0 <= l < i < |reports| && Eligible(reports[i]) && Latest(reports, i, l)
      ensures HarmlessRestart(reports, restarted, i)
         <==> (SerialAt(reports, i) == SerialAt(reports, l) <==> !FirstOfSession(reports, i))
    {
      JustBefore(reports, restarted, i);
      OneLatest(reports, i, l, i - 1);
      HarmlessOrRepeated(reports, restarted, i);
    }
    if SerialsTellSessions(reports) {
      forall k | 0 < k < |reports| ensures HarmlessRestart(reports, restarted, k) {
        JustBefore(reports, restarted, k);
      }
    }
  }

  lemma JustBefore(reports: seq<Report>, restarted: seq<bool>, k: nat)
    requires 0 < k < |reports| == |restarted| && HandedOut(reports, restarted)
    ensures Latest(reports, k, k - 1) && Eligible(reports[k])
  {
    hide Eligible, FirstOfSession, SerialFollows;
  }
}
