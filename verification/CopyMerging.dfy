// What is left of the copies of one book when ReadingStatsStore::normalizeBooks has merged them
// (src/ReadingStatsStore.cpp): paths, names, progress and dates.
module CopyMerging {
  import opened ReadingDays
  import opened Books
  import opened MergedFigures

  // The books with an id, in order.
  function CopiesOf(books: seq<Book>, id: string): (r: seq<Book>)
    ensures forall k :: 0 <= k < |r| ==> r[k] in books && r[k].bookId == id
    ensures forall b :: b in books && b.bookId == id ==> b in r
  {
    if books == [] then []
    else
      var front, last := books[..|books| - 1], books[|books| - 1];
      assert books == front + [last];
      CopiesOf(front, id) + if last.bookId == id then [last] else []
  }

  // Merging the copies one after the other into the first.
  function MergeAll(lib: Library, copies: seq<Book>): Book
    requires copies != []
  {
    if |copies| == 1 then copies[0]
    else Merge(lib, MergeAll(lib, copies[..|copies| - 1]), copies[|copies| - 1])
  }

  lemma MergeOneMore(lib: Library, front: seq<Book>, last: Book)
    requires front != []
    ensures MergeAll(lib, front + [last]) == Merge(lib, MergeAll(lib, front), last)
  {
    hide Merge;
    assert (front + [last])[..|front|] == front;
  }

  function Itself(b: Book): Book { b }

  function MergeWith(lib: Library): (Book, Book) -> Book { (p: Book, d: Book) => Merge(lib, p, d) }

  lemma {:induction false} GatherFromMerges(lib: Library, first: Book, books: seq<Book>, id: string)
    ensures GatherFrom(first, books, id, Itself, MergeWith(lib)) == MergeAll(lib, [first] + CopiesOf(books, id))
  {
    hide Merge;
    if books == [] {
      assert [first] + [] == [first];
    } else {
      var front, last := books[..|books| - 1], books[|books| - 1];
      GatherFromMerges(lib, first, front, id);
      var copies := [first] + CopiesOf(front, id);
      if last.bookId == id {
        assert [first] + CopiesOf(books, id) == copies + [last];
        assert (copies + [last])[..|copies|] == copies;
      } else {
        assert CopiesOf(books, id) == CopiesOf(front, id);
      }
    }
  }

  lemma CopiesAppend(front: seq<Book>, last: Book, id: string)
    ensures CopiesOf(front + [last], id) == CopiesOf(front, id) + if last.bookId == id then [last] else []
  {
    assert (front + [last])[..|front|] == front;
  }

  lemma {:induction false} CopiesFirst(books: seq<Book>, id: string)
    requires books != []
    ensures CopiesOf(books, id) == (if books[0].bookId == id then [books[0]] else []) + CopiesOf(books[1..], id)
  {
    hide CopiesOf;
    var front, last := books[..|books| - 1], books[|books| - 1];
    assert books == front + [last];
    CopiesAppend(front, last, id);
    if front == [] {
      NoCopies(id);
      assert books[1..] == [];
    } else {
      CopiesFirst(front, id);
      CopiesAppend(front[1..], last, id);
      assert books[1..] == front[1..] + [last];
    }
  }

  lemma NoCopies(id: string)
    ensures CopiesOf([], id) == []
  {
  }

  lemma {:induction false} GatherMerges(lib: Library, books: seq<Book>, id: string)
    requires HasId(books, id)
    ensures CopiesOf(books, id) != [] && Gather(books, id, Itself, MergeWith(lib)) == MergeAll(lib, CopiesOf(books, id))
  {
    hide HasId, CopiesOf, GatherFrom;
    AnyBook(books, id);
    CopiesFirst(books, id);
    if books[0].bookId == id {
      GatherFromMerges(lib, books[0], books[1..], id);
    } else {
      HasIdLater(books, id);
      GatherMerges(lib, books[1..], id);
      assert [] + CopiesOf(books[1..], id) == CopiesOf(books[1..], id);
    }
  }

  // A survivor is the merge of all copies in the order of the list.
  lemma SurvivorMergesCopies(lib: Library, books: seq<Book>, k: nat)
    requires k < |MergedBooks(lib, books)| && MergedBooks(lib, books)[k].bookId != ""
    ensures var b := MergedBooks(lib, books)[k];
            CopiesOf(books, b.bookId) != [] && b == MergeAll(lib, CopiesOf(books, b.bookId))
  {
    hide MergedBooks, Gather, Merge, HasId, CopiesOf;
    assert Combines(lib, Itself, MergeWith(lib));
    MergedGathers(lib, books, Itself, MergeWith(lib), k);
    GatherMerges(lib, books, MergedBooks(lib, books)[k].bookId);
  }

  // ----- paths -----

  // A path of a copy that is merged into another.
  predicate KnowsPath(b: Book, x: string) {
    x == b.path || x in b.knownPaths
  }

  lemma MergeKnows(lib: Library, p: Book, d: Book, x: string)
    ensures x in Merge(lib, p, d).knownPaths <==> x != "" && (x in p.knownPaths || KnowsPath(d, x))
  {
    hide Precedes;
    DedupedMembers(p.knownPaths + [d.path] + d.knownPaths);
  }

  // No path of any copy is lost and none appears.
  lemma {:induction false} PathsSurvive(lib: Library, copies: seq<Book>, x: string)
    requires copies != [] && x != ""
    ensures x in MergeAll(lib, copies).knownPaths
       <==> x in copies[0].knownPaths || exists k :: 0 < k < |copies| && KnowsPath(copies[k], x)
    ensures |copies| > 1 ==> "" !in MergeAll(lib, copies).knownPaths
  {
    hide Merge, KnowsPath;
    if |copies| > 1 {
      var front, last := copies[..|copies| - 1], copies[|copies| - 1];
      PathsSurvive(lib, front, x);
      MergeKnows(lib, MergeAll(lib, front), last, x);
      MergeKnows(lib, MergeAll(lib, front), last, "");
    }
  }

  // ----- dates -----

  // The earliest of the copies' dates that are known, 0 if none is.
  ghost predicate IsEarliest(copies: seq<Book>, f: Book -> nat, t: nat) {
    && (t == 0 <==> forall k :: 0 <= k < |copies| ==> f(copies[k]) == 0)
    && (t != 0 ==> (forall k :: 0 <= k < |copies| && f(copies[k]) != 0 ==> t <= f(copies[k]))
                   && exists k :: 0 <= k < |copies| && f(copies[k]) == t)
  }

  ghost predicate IsLatest(copies: seq<Book>, f: Book -> nat, t: nat) {
    && (forall k :: 0 <= k < |copies| ==> f(copies[k]) <= t)
    && exists k :: 0 <= k < |copies| && f(copies[k]) == t
  }

  lemma EarliestGrows(copies: seq<Book>, last: Book, f: Book -> nat, t: nat)
    requires IsEarliest(copies, f, t)
    ensures IsEarliest(copies + [last], f, EarliestKnown(t, f(last)))
  {
    var all := copies + [last];
    assert all[|copies|] == last && forall k :: 0 <= k < |copies| ==> all[k] == copies[k];
    if t != 0 {
      var k :| 0 <= k < |copies| && f(copies[k]) == t;
      assert f(all[k]) == t;
    }
  }

  lemma LatestGrows(copies: seq<Book>, last: Book, f: Book -> nat, t: nat)
    requires IsLatest(copies, f, t)
    ensures IsLatest(copies + [last], f, Latest(t, f(last)))
  {
    var all := copies + [last];
    assert all[|copies|] == last && forall k :: 0 <= k < |copies| ==> all[k] == copies[k];
    var k :| 0 <= k < |copies| && f(copies[k]) == t;
    assert f(all[k]) == t;
  }

  // First reading and completion are the earliest known, last reading and longest last session the latest.
  lemma {:induction false} DatesOfCopies(lib: Library, copies: seq<Book>)
    requires copies != []
    ensures var b := MergeAll(lib, copies);
            && IsEarliest(copies, FirstReadOf, b.firstReadAt) && IsEarliest(copies, CompletedAtOf, b.completedAt)
            && IsLatest(copies, LastReadOf, b.lastReadAt) && IsLatest(copies, LastSessionOf, b.lastSessionMs)
  {
    if |copies| > 1 {
      hide Merge, MergeAll, IsEarliest, IsLatest;
      var front, last := copies[..|copies| - 1], copies[|copies| - 1];
      var b := MergeAll(lib, front);
      assert copies == front + [last];
      DatesOfCopies(lib, front);
      MergeOneMore(lib, front, last);
      MergeFigures(lib, b, last);
      EarliestGrows(front, last, FirstReadOf, b.firstReadAt);
      EarliestGrows(front, last, CompletedAtOf, b.completedAt);
      LatestGrows(front, last, LastReadOf, b.lastReadAt);
      LatestGrows(front, last, LastSessionOf, b.lastSessionMs);
    }
  }

  // ----- names -----

  function TitleOf(b: Book): string { b.title }
  function AuthorOf(b: Book): string { b.author }
  function CoverOf(b: Book): string { b.coverBmpPath }
  function ChapterOf(b: Book): string { b.chapterTitle }

  // The text belongs to some copy and is empty only if all of them are; and it is that of the copy read
  // last, if that has one (of several read last, the one latest in the list).
  ghost predicate IsNewestText(copies: seq<Book>, f: Book -> string, text: string) {
    && (exists k :: 0 <= k < |copies| && f(copies[k]) == text)
    && (text == "" ==> forall k :: 0 <= k < |copies| ==> f(copies[k]) == "")
    && (forall j :: 0 <= j < |copies| && NewestText(copies, f, j) ==> text == f(copies[j]))
  }

  ghost predicate NewestText(copies: seq<Book>, f: Book -> string, j: nat)
    requires j < |copies|
  {
    && f(copies[j]) != ""
    && (forall k :: 0 <= k < |copies| ==> copies[k].lastReadAt <= copies[j].lastReadAt)
    && (forall k :: j < k < |copies| ==> f(copies[k]) == "" || copies[k].lastReadAt < copies[j].lastReadAt)
  }

  lemma NewestTextGrows(copies: seq<Book>, last: Book, f: Book -> string, text: string, lastReadAt: nat)
    requires IsNewestText(copies, f, text) && IsLatest(copies, LastReadOf, lastReadAt)
    ensures IsNewestText(copies + [last], f, Newer(text, f(last), last.lastReadAt >= lastReadAt))
  {
    var all, result := copies + [last], Newer(text, f(last), last.lastReadAt >= lastReadAt);
    assert all[|copies|] == last && forall k :: 0 <= k < |copies| ==> all[k] == copies[k];
    assert forall k :: 0 <= k < |copies| ==> copies[k].lastReadAt == LastReadOf(copies[k]);
    var k :| 0 <= k < |copies| && f(copies[k]) == text;
    assert f(all[k]) == text && f(all[|copies|]) == f(last);
    forall j | 0 <= j < |all| && NewestText(all, f, j) ensures result == f(all[j]) {
      if j < |copies| {
        NewestBefore(copies, last, f, j);
        var m :| 0 <= m < |copies| && LastReadOf(copies[m]) == lastReadAt;
        assert all[m].lastReadAt <= all[j].lastReadAt;
      } else {
        var m :| 0 <= m < |copies| && LastReadOf(copies[m]) == lastReadAt;
        assert all[m].lastReadAt <= last.lastReadAt;
      }
    }
  }

  lemma NewestBefore(copies: seq<Book>, last: Book, f: Book -> string, j: nat)
    requires j < |copies| && NewestText(copies + [last], f, j)
    ensures NewestText(copies, f, j) && (f(last) == "" || last.lastReadAt < copies[j].lastReadAt)
  {
    var all := copies + [last];
    assert all[|copies|] == last && forall k :: 0 <= k < |copies| ==> all[k] == copies[k];
  }

  lemma {:induction false} NamesOfCopies(lib: Library, copies: seq<Book>)
    requires copies != []
    ensures var b := MergeAll(lib, copies);
            && IsNewestText(copies, TitleOf, b.title) && IsNewestText(copies, AuthorOf, b.author)
            && IsNewestText(copies, CoverOf, b.coverBmpPath) && IsNewestText(copies, ChapterOf, b.chapterTitle)
  {
    hide Merge, IsNewestText, IsLatest;
    if |copies| == 1 {
      OneText(copies, TitleOf);
      OneText(copies, AuthorOf);
      OneText(copies, CoverOf);
      OneText(copies, ChapterOf);
    } else {
      var front, last := copies[..|copies| - 1], copies[|copies| - 1];
      var b := MergeAll(lib, front);
      NamesOfCopies(lib, front);
      DatesOfCopies(lib, front);
      MergeNames(lib, b, last);
      assert copies == front + [last];
      NewestTextGrows(front, last, TitleOf, b.title, b.lastReadAt);
      NewestTextGrows(front, last, AuthorOf, b.author, b.lastReadAt);
      NewestTextGrows(front, last, CoverOf, b.coverBmpPath, b.lastReadAt);
      NewestTextGrows(front, last, ChapterOf, b.chapterTitle, b.lastReadAt);
    }
  }

  lemma OneText(copies: seq<Book>, f: Book -> string)
    requires |copies| == 1
    ensures IsNewestText(copies, f, f(copies[0]))
  {
  }

  lemma MergeNames(lib: Library, p: Book, d: Book)
    ensures var m, newer := Merge(lib, p, d), d.lastReadAt >= p.lastReadAt;
            && TitleOf(m) == Newer(TitleOf(p), TitleOf(d), newer) && AuthorOf(m) == Newer(AuthorOf(p), AuthorOf(d), newer)
            && CoverOf(m) == Newer(CoverOf(p), CoverOf(d), newer) && ChapterOf(m) == Newer(ChapterOf(p), ChapterOf(d), newer)
  {
    hide Deduped, Normalized;
  }

  // ----- the current path -----

  // The copy read last and first in the list, which has a path.
  ghost predicate ReadLast(copies: seq<Book>, s: nat)
    requires s < |copies|
  {
    && copies[s].path != ""
    && (forall k :: 0 <= k < s ==> copies[k].lastReadAt < copies[s].lastReadAt)
    && (forall k :: s < k < |copies| ==> copies[k].lastReadAt <= copies[s].lastReadAt)
  }

  predicate HasFile(lib: Library, b: Book) {
    b.path != "" && lib.exists_(b.path)
  }

  // Its path, or if there is no such file that of the first later copy whose file exists.
  ghost predicate IsChosenPath(lib: Library, copies: seq<Book>, s: nat, path: string)
    requires s < |copies|
  {
    if lib.exists_(copies[s].path) || (forall k :: s < k < |copies| ==> !HasFile(lib, copies[k])) then path == copies[s].path
    else exists j :: s < j < |copies| && HasFile(lib, copies[j]) && path == copies[j].path
                     && forall k :: s < k < j ==> !HasFile(lib, copies[k])
  }

  lemma MergePath(lib: Library, p: Book, d: Book)
    ensures Merge(lib, p, d).path
         == if (p.path != "" && !lib.exists_(p.path) && HasFile(lib, d)) || (d.path != "" && d.lastReadAt > p.lastReadAt)
            then d.path else p.path
  {
    hide Deduped, Normalized;
  }

  lemma ChosenPathGrows(lib: Library, copies: seq<Book>, last: Book, s: nat, path: string)
    requires s < |copies| && copies[s].path != "" && IsChosenPath(lib, copies, s, path)
    ensures path != ""
    ensures IsChosenPath(lib, copies + [last], s, if !lib.exists_(path) && HasFile(lib, last) then last.path else path)
  {
    var all := copies + [last];
    assert all[|copies|] == last && forall k :: 0 <= k < |copies| ==> all[k] == copies[k];
    if !lib.exists_(copies[s].path) && exists k :: s < k < |copies| && HasFile(lib, copies[k]) {
      var j :| s < j < |copies| && HasFile(lib, copies[j]) && path == copies[j].path
               && forall k :: s < k < j ==> !HasFile(lib, copies[k]);
      assert HasFile(lib, all[j]);
    }
  }

  lemma ReadLastBefore(front: seq<Book>, last: Book, s: nat)
    requires s <= |front| && ReadLast(front + [last], s)
    ensures s < |front| ==> ReadLast(front, s) && last.lastReadAt <= front[s].lastReadAt
    ensures s == |front| ==> last.path != "" && forall k :: 0 <= k < |front| ==> front[k].lastReadAt < last.lastReadAt
  {
    var all := front + [last];
    assert all[|front|] == last && forall k :: 0 <= k < |front| ==> all[k] == front[k];
  }

  lemma {:induction false} PathOfCopies(lib: Library, copies: seq<Book>, s: nat)
    requires s < |copies| && ReadLast(copies, s)
    ensures IsChosenPath(lib, copies, s, MergeAll(lib, copies).path)
  {
    if |copies| > 1 {
      hide Merge, MergeAll, IsChosenPath, IsLatest, ReadLast;
      var front, last := copies[..|copies| - 1], copies[|copies| - 1];
      var b := MergeAll(lib, front);
      assert copies == front + [last];
      DatesOfCopies(lib, front);
      MergeOneMore(lib, front, last);
      MergePath(lib, b, last);
      ReadLastBefore(front, last, s);
      if s == |front| {
        LatestIsBefore(front, b.lastReadAt, last.lastReadAt);
        LastIsChosen(lib, copies);
      } else {
        PathOfCopies(lib, front, s);
        LatestIsOf(front, s, b.lastReadAt);
        HasPath(front, s);
        ChosenPathGrows(lib, front, last, s, b.path);
      }
    }
  }

  lemma HasPath(copies: seq<Book>, s: nat)
    requires s < |copies| && ReadLast(copies, s)
    ensures copies[s].path != ""
  {
  }

  lemma LastIsChosen(lib: Library, copies: seq<Book>)
    requires copies != []
    ensures IsChosenPath(lib, copies, |copies| - 1, copies[|copies| - 1].path)
  {
  }

  lemma LatestIsBefore(copies: seq<Book>, lastReadAt: nat, t: nat)
    requires IsLatest(copies, LastReadOf, lastReadAt) && forall k :: 0 <= k < |copies| ==> copies[k].lastReadAt < t
    ensures lastReadAt < t
  {
    var k :| 0 <= k < |copies| && LastReadOf(copies[k]) == lastReadAt;
    assert copies[k].lastReadAt < t;
  }

  lemma LatestIsOf(copies: seq<Book>, s: nat, lastReadAt: nat)
    requires s < |copies| && IsLatest(copies, LastReadOf, lastReadAt)
    ensures copies[s].lastReadAt <= lastReadAt
  {
    assert LastReadOf(copies[s]) <= lastReadAt;
  }

  // ----- progress -----

  function ProgressOf(b: Book): nat { b.lastProgressPercent }
  function ChapterProgressOf(b: Book): nat { b.chapterProgressPercent }

  // Of the copies read last, the one latest in the list.
  ghost predicate Newest(copies: seq<Book>, s: nat)
    requires s < |copies|
  {
    && (forall k :: 0 <= k < s ==> copies[k].lastReadAt <= copies[s].lastReadAt)
    && (forall k :: s < k < |copies| ==> copies[k].lastReadAt < copies[s].lastReadAt)
  }

  // The furthest progress of that copy and the ones after it.
  ghost predicate IsFurthest(copies: seq<Book>, f: Book -> nat, s: nat, percent: nat) {
    && (forall k :: s <= k < |copies| ==> f(copies[k]) <= percent)
    && (exists k :: s <= k < |copies| && f(copies[k]) == percent)
  }

  lemma MergeProgress(lib: Library, p: Book, d: Book)
    ensures var m := Merge(lib, p, d);
            if d.lastReadAt >= p.lastReadAt
            then ProgressOf(m) == ProgressOf(d) && ChapterProgressOf(m) == ChapterProgressOf(d)
            else && ProgressOf(m) == Latest(ProgressOf(p), ProgressOf(d))
                 && ChapterProgressOf(m) == Latest(ChapterProgressOf(p), ChapterProgressOf(d))
  {
    hide Deduped, Normalized;
  }

  lemma FurthestGrows(copies: seq<Book>, last: Book, f: Book -> nat, s: nat, percent: nat)
    requires s < |copies| && IsFurthest(copies, f, s, percent)
    ensures IsFurthest(copies + [last], f, s, Latest(percent, f(last)))
  {
    var all := copies + [last];
    assert all[|copies|] == last && forall k :: 0 <= k < |copies| ==> all[k] == copies[k];
    var k :| s <= k < |copies| && f(copies[k]) == percent;
    assert f(all[k]) == percent;
  }

  lemma NewestOneBefore(front: seq<Book>, last: Book, s: nat)
    requires s <= |front| && Newest(front + [last], s)
    ensures s < |front| ==> Newest(front, s) && last.lastReadAt < front[s].lastReadAt
    ensures s == |front| ==> forall k :: 0 <= k < |front| ==> front[k].lastReadAt <= last.lastReadAt
  {
    var all := front + [last];
    assert all[|front|] == last && forall k :: 0 <= k < |front| ==> all[k] == front[k];
  }

  lemma {:induction false} ProgressOfCopies(lib: Library, copies: seq<Book>, s: nat)
    requires s < |copies| && Newest(copies, s)
    ensures var b := MergeAll(lib, copies);
            IsFurthest(copies, ProgressOf, s, b.lastProgressPercent) && IsFurthest(copies, ChapterProgressOf, s, b.chapterProgressPercent)
  {
    if |copies| > 1 {
      hide Merge, MergeAll, IsFurthest, IsLatest, Newest;
      var front, last := copies[..|copies| - 1], copies[|copies| - 1];
      var b := MergeAll(lib, front);
      assert copies == front + [last];
      DatesOfCopies(lib, front);
      MergeOneMore(lib, front, last);
      MergeProgress(lib, b, last);
      NewestOneBefore(front, last, s);
      if s == |front| {
        LatestIsNotAfter(front, b.lastReadAt, last.lastReadAt);
        LastIsFurthest(copies, ProgressOf);
        LastIsFurthest(copies, ChapterProgressOf);
      } else {
        ProgressOfCopies(lib, front, s);
        LatestIsOf(front, s, b.lastReadAt);
        FurthestGrows(front, last, ProgressOf, s, b.lastProgressPercent);
        FurthestGrows(front, last, ChapterProgressOf, s, b.chapterProgressPercent);
      }
    }
  }

  lemma LastIsFurthest(copies: seq<Book>, f: Book -> nat)
    requires copies != []
    ensures IsFurthest(copies, f, |copies| - 1, f(copies[|copies| - 1]))
  {
  }

  lemma LatestIsNotAfter(copies: seq<Book>, lastReadAt: nat, t: nat)
    requires IsLatest(copies, LastReadOf, lastReadAt) && forall k :: 0 <= k < |copies| ==> copies[k].lastReadAt <= t
    ensures lastReadAt <= t
  {
    var k :| 0 <= k < |copies| && LastReadOf(copies[k]) == lastReadAt;
    assert copies[k].lastReadAt <= t;
  }

  // ----- the list given to normalizeBooks -----

  // The path a book is normalised from: its own, or its first known one.
  function StartingPath(b: Book): string {
    if b.path == "" && b.knownPaths != [] then b.knownPaths[0] else b.path
  }

  // Normalising puts the normalised path among the known ones, unless there is none.
  lemma NormalizedPaths(lib: Library, b: Book, x: string)
    ensures var n, path := NormalizedBook(lib, b), lib.normalizePath(StartingPath(b));
            if path == "" then n.path == StartingPath(b) && n.knownPaths == b.knownPaths
            else n.path == path && (x in n.knownPaths <==> x != "" && (x in b.knownPaths || x == path))
    ensures var n := NormalizedBook(lib, b);
            && n.title == b.title && n.author == b.author && n.coverBmpPath == b.coverBmpPath && n.chapterTitle == b.chapterTitle
            && n.lastSessionMs == b.lastSessionMs && n.completedAt == b.completedAt
            && n.lastProgressPercent == b.lastProgressPercent && n.chapterProgressPercent == b.chapterProgressPercent
  {
    hide Deduped, Normalized;
    DedupedMembers(b.knownPaths + [lib.normalizePath(StartingPath(b))]);
  }

  // What normalizeBooks leaves of each book: the normalised copies with its stable id, in the order of the
  // list, merged. No path is lost; names, path and progress follow the copy read last.
  lemma NormalizingKeepsNames(lib: Library, books: seq<Book>, k: nat, x: string)
    requires k < |MergedBooks(lib, NormalizedAll(lib, books))|
    requires MergedBooks(lib, NormalizedAll(lib, books))[k].bookId != ""
    ensures var b := MergedBooks(lib, NormalizedAll(lib, books))[k];
            var copies := CopiesOf(NormalizedAll(lib, books), b.bookId);
            && copies != []
            && (x != "" ==> (x in b.knownPaths
                             <==> x in copies[0].knownPaths || exists j :: 0 < j < |copies| && KnowsPath(copies[j], x)))
            && IsEarliest(copies, FirstReadOf, b.firstReadAt) && IsEarliest(copies, CompletedAtOf, b.completedAt)
            && IsLatest(copies, LastReadOf, b.lastReadAt) && IsLatest(copies, LastSessionOf, b.lastSessionMs)
            && IsNewestText(copies, TitleOf, b.title) && IsNewestText(copies, AuthorOf, b.author)
            && IsNewestText(copies, CoverOf, b.coverBmpPath) && IsNewestText(copies, ChapterOf, b.chapterTitle)
            && (forall s :: 0 <= s < |copies| && ReadLast(copies, s) ==> IsChosenPath(lib, copies, s, b.path))
            && (forall s :: 0 <= s < |copies| && Newest(copies, s) ==>
                  && IsFurthest(copies, ProgressOf, s, b.lastProgressPercent)
                  && IsFurthest(copies, ChapterProgressOf, s, b.chapterProgressPercent))
  {
    hide MergedBooks, NormalizedAll, CopiesOf, MergeAll, KnowsPath, ReadLast, Newest, IsEarliest, IsLatest, IsNewestText;
    hide IsChosenPath, IsFurthest;
    var all := NormalizedAll(lib, books);
    SurvivorMergesCopies(lib, all, k);
    var copies := CopiesOf(all, MergedBooks(lib, all)[k].bookId);
    if x != "" { PathsSurvive(lib, copies, x); }
    DatesOfCopies(lib, copies);
    NamesOfCopies(lib, copies);
    forall s | 0 <= s < |copies| && ReadLast(copies, s) ensures IsChosenPath(lib, copies, s, MergeAll(lib, copies).path) {
      PathOfCopies(lib, copies, s);
    }
    forall s | 0 <= s < |copies| && Newest(copies, s)
      ensures && IsFurthest(copies, ProgressOf, s, MergeAll(lib, copies).lastProgressPercent)
              && IsFurthest(copies, ChapterProgressOf, s, MergeAll(lib, copies).chapterProgressPercent)
    {
      ProgressOfCopies(lib, copies, s);
    }
  }
}
