// What ReadingStatsStore::normalizeBooks (src/ReadingStatsStore.cpp) does, in one pass over another, to the
// figures of the list it is given: per stable id, nothing is lost and nothing counted twice.
module MergedFigures {
  import opened ReadingDays
  import opened Books

  // The id under which a book is merged.
  function StableId(lib: Library, b: Book): string {
    if b.bookId == "" then lib.resolveStableBookId(b.path) else b.bookId
  }

  predicate IsCopy(lib: Library, b: Book, id: string) {
    StableId(lib, b) == id
  }

  lemma NormalizedKeeps(lib: Library, b: Book, d: nat)
    ensures var n := NormalizedBook(lib, b);
            && n.bookId == StableId(lib, b)
            && n.totalReadingMs == b.totalReadingMs && n.sessions == b.sessions && n.completed == b.completed
            && n.lastReadAt == b.lastReadAt && n.firstReadAt == b.firstReadAt
            && DayTotal(n.readingDays, d) == DayTotal(b.readingDays, d)
  {
    hide Deduped;
    NormalizedMeans(b.readingDays);
  }

  // ----- sums -----

  // The sum of a figure over the copies of one book.
  function SumOf(lib: Library, books: seq<Book>, id: string, f: Book -> nat): nat {
    if books == [] then 0
    else
      var last := books[|books| - 1];
      SumOf(lib, books[..|books| - 1], id, f) + if IsCopy(lib, last, id) then f(last) else 0
  }

  // The same over books that carry their ids already.
  function SumById(books: seq<Book>, id: string, f: Book -> nat): nat {
    if books == [] then 0
    else
      var last := books[|books| - 1];
      SumById(books[..|books| - 1], id, f) + if last.bookId == id then f(last) else 0
  }

  lemma {:induction false} GatherFromIsSum(acc: nat, books: seq<Book>, id: string, f: Book -> nat)
    ensures GatherFrom(acc, books, id, f, Plus) == acc + SumById(books, id, f)
  {
    if books != [] {
      GatherFromIsSum(acc, books[..|books| - 1], id, f);
    }
  }

  lemma {:induction false} SumFromFront(books: seq<Book>, id: string, f: Book -> nat)
    requires books != []
    ensures SumById(books, id, f) == (if books[0].bookId == id then f(books[0]) else 0) + SumById(books[1..], id, f)
  {
    if |books| > 1 {
      SumFromFront(books[..|books| - 1], id, f);
      assert books[..|books| - 1][1..] == books[1..][..|books| - 2];
    } else {
      assert books[1..] == [] && books[..0] == [];
    }
  }

  lemma {:induction false} GatherIsSum(books: seq<Book>, id: string, f: Book -> nat)
    requires HasId(books, id)
    ensures Gather(books, id, f, Plus) == SumById(books, id, f)
  {
    hide HasId;
    AnyBook(books, id);
    SumFromFront(books, id, f);
    if books[0].bookId == id {
      GatherFromIsSum(f(books[0]), books[1..], id, f);
    } else {
      HasIdLater(books, id);
      GatherIsSum(books[1..], id, f);
    }
  }

  lemma AnyBook(books: seq<Book>, id: string)
    requires HasId(books, id)
    ensures books != []
  {
  }

  // Normalising changes no figure.
  ghost predicate Unaltered(lib: Library, f: Book -> nat) {
    forall b: Book :: f(NormalizedBook(lib, b)) == f(b)
  }

  lemma {:induction false} SumNormalized(lib: Library, books: seq<Book>, id: string, f: Book -> nat)
    requires Unaltered(lib, f)
    ensures SumById(NormalizedAll(lib, books), id, f) == SumOf(lib, books, id, f)
  {
    hide NormalizedBook;
    if books != [] {
      var front, last := books[..|books| - 1], books[|books| - 1];
      SumNormalized(lib, front, id, f);
      assert NormalizedAll(lib, books)[..|books| - 1] == NormalizedAll(lib, front);
      NormalizedKeeps(lib, last, 0);
    }
  }

  lemma FiguresUnaltered(lib: Library, d: nat)
    ensures Unaltered(lib, TimeOf) && Unaltered(lib, SessionsOf) && Unaltered(lib, DayTimeOf(d))
  {
    hide NormalizedBook;
    forall b: Book
      ensures TimeOf(NormalizedBook(lib, b)) == TimeOf(b) && SessionsOf(NormalizedBook(lib, b)) == SessionsOf(b)
      ensures DayTimeOf(d)(NormalizedBook(lib, b)) == DayTimeOf(d)(b)
    {
      NormalizedKeeps(lib, b, d);
    }
  }

  // Reading time, sessions and the time of each day of a surviving book are the sums over all books of the
  // list with its stable id.
  lemma NormalizingConserves(lib: Library, books: seq<Book>, k: nat, d: nat)
    requires k < |MergedBooks(lib, NormalizedAll(lib, books))|
    requires MergedBooks(lib, NormalizedAll(lib, books))[k].bookId != ""
    ensures var b := MergedBooks(lib, NormalizedAll(lib, books))[k];
            && b.totalReadingMs == SumOf(lib, books, b.bookId, TimeOf)
            && b.sessions == SumOf(lib, books, b.bookId, SessionsOf)
            && DayTotal(b.readingDays, d) == SumOf(lib, books, b.bookId, DayTimeOf(d))
  {
    hide MergedBooks, NormalizedAll, Gather, SumById, SumOf, HasId, Unaltered;
    var all := NormalizedAll(lib, books);
    var id := MergedBooks(lib, all)[k].bookId;
    MergingConserves(lib, all, k, d);
    FiguresUnaltered(lib, d);
    GatherIsSum(all, id, TimeOf);
    GatherIsSum(all, id, SessionsOf);
    GatherIsSum(all, id, DayTimeOf(d));
    SumNormalized(lib, books, id, TimeOf);
    SumNormalized(lib, books, id, SessionsOf);
    SumNormalized(lib, books, id, DayTimeOf(d));
  }

  // ----- who survives -----

  // The stable ids of the list are exactly those of the survivors, each once.
  lemma StableIdsSurvive(lib: Library, books: seq<Book>, id: string)
    ensures HasId(MergedBooks(lib, NormalizedAll(lib, books)), id) <==> exists j :: 0 <= j < |books| && IsCopy(lib, books[j], id)
    ensures forall j, k :: 0 <= j < k < |MergedBooks(lib, NormalizedAll(lib, books))|
                           && MergedBooks(lib, NormalizedAll(lib, books))[k].bookId != "" ==>
                             MergedBooks(lib, NormalizedAll(lib, books))[j].bookId
                             != MergedBooks(lib, NormalizedAll(lib, books))[k].bookId
  {
    hide MergedBooks, NormalizedBook;
    var all := NormalizedAll(lib, books);
    MergedIds(lib, all, id);
    forall j | 0 <= j < |books| ensures all[j].bookId == id <==> IsCopy(lib, books[j], id) {
      NormalizedKeeps(lib, books[j], 0);
    }
    forall j: nat, k: nat | j < k < |MergedBooks(lib, all)| && MergedBooks(lib, all)[k].bookId != ""
      ensures MergedBooks(lib, all)[j].bookId != MergedBooks(lib, all)[k].bookId
    {
      MergedDistinct(lib, all, j, k);
    }
  }

  // ----- marks -----

  lemma {:induction false} GatherEither(acc: bool, books: seq<Book>, id: string)
    ensures GatherFrom(acc, books, id, CompletedOf, Either)
       <==> acc || exists j :: 0 <= j < |books| && books[j].bookId == id && books[j].completed
  {
    if books != [] {
      var front, last := books[..|books| - 1], books[|books| - 1];
      GatherEither(acc, front, id);
      assert books == front + [last] && books[|front|] == last;
      assert forall j :: 0 <= j < |front| ==> front[j] == books[j];
    }
  }

  lemma {:induction false} GatherLatest(acc: nat, books: seq<Book>, id: string)
    ensures var m := GatherFrom(acc, books, id, LastReadOf, Latest);
            && acc <= m && (forall j :: 0 <= j < |books| && books[j].bookId == id ==> books[j].lastReadAt <= m)
            && (m == acc || exists j :: 0 <= j < |books| && books[j].bookId == id && books[j].lastReadAt == m)
  {
    if books != [] {
      var front, last := books[..|books| - 1], books[|books| - 1];
      GatherLatest(acc, front, id);
      assert books == front + [last] && books[|front|] == last;
      assert forall j :: 0 <= j < |front| ==> front[j] == books[j];
    }
  }

  // All copies agree with a completion and a last reading.
  ghost predicate MarksOf(books: seq<Book>, id: string, completed: bool, lastReadAt: nat) {
    && (completed <==> exists j :: 0 <= j < |books| && books[j].bookId == id && books[j].completed)
    && (forall j :: 0 <= j < |books| && books[j].bookId == id ==> books[j].lastReadAt <= lastReadAt)
    && (exists j :: 0 <= j < |books| && books[j].bookId == id && books[j].lastReadAt == lastReadAt)
  }

  lemma {:induction false} GatheredMarks(books: seq<Book>, id: string)
    requires HasId(books, id)
    ensures MarksOf(books, id, Gather(books, id, CompletedOf, Either), Gather(books, id, LastReadOf, Latest))
  {
    AnyBook(books, id);
    var first, rest := books[0], books[1..];
    assert books == [first] + rest;
    assert forall j :: 0 <= j < |rest| ==> rest[j] == books[j + 1];
    if first.bookId == id {
      GatherEither(first.completed, rest, id);
      GatherLatest(first.lastReadAt, rest, id);
    } else {
      HasIdLater(books, id);
      GatheredMarks(rest, id);
    }
  }

  // A surviving book is completed exactly when some book of the list with its stable id was, and was last
  // read when the latest of them was.
  lemma NormalizingCombinesMarks(lib: Library, books: seq<Book>, k: nat)
    requires k < |MergedBooks(lib, NormalizedAll(lib, books))|
    requires MergedBooks(lib, NormalizedAll(lib, books))[k].bookId != ""
    ensures var b := MergedBooks(lib, NormalizedAll(lib, books))[k];
            && (b.completed <==> exists j :: 0 <= j < |books| && IsCopy(lib, books[j], b.bookId) && books[j].completed)
            && (forall j :: 0 <= j < |books| && IsCopy(lib, books[j], b.bookId) ==> books[j].lastReadAt <= b.lastReadAt)
            && (exists j :: 0 <= j < |books| && IsCopy(lib, books[j], b.bookId) && books[j].lastReadAt == b.lastReadAt)
  {
    hide MergedBooks, Gather, HasId, NormalizedBook, IsCopy;
    var all := NormalizedAll(lib, books);
    var b := MergedBooks(lib, all)[k];
    MergingCombinesMarks(lib, all, k);
    GatheredMarks(all, b.bookId);
    forall j | 0 <= j < |books|
      ensures all[j].bookId == b.bookId <==> IsCopy(lib, books[j], b.bookId)
      ensures all[j].completed == books[j].completed && all[j].lastReadAt == books[j].lastReadAt
    {
      CopyNormalized(lib, books[j], b.bookId);
    }
    TransferMarks(lib, books, all, b);
  }

  lemma CopyNormalized(lib: Library, b: Book, id: string)
    ensures var n := NormalizedBook(lib, b);
            (n.bookId == id <==> IsCopy(lib, b, id)) && n.completed == b.completed && n.lastReadAt == b.lastReadAt
  {
    hide NormalizedBook;
    NormalizedKeeps(lib, b, 0);
  }

  lemma TransferMarks(lib: Library, books: seq<Book>, all: seq<Book>, b: Book)
    requires |all| == |books| && MarksOf(all, b.bookId, b.completed, b.lastReadAt)
    requires forall j :: 0 <= j < |books| ==>
               && (all[j].bookId == b.bookId <==> IsCopy(lib, books[j], b.bookId))
               && all[j].completed == books[j].completed && all[j].lastReadAt == books[j].lastReadAt
    ensures b.completed <==> exists j :: 0 <= j < |books| && IsCopy(lib, books[j], b.bookId) && books[j].completed
    ensures forall j :: 0 <= j < |books| && IsCopy(lib, books[j], b.bookId) ==> books[j].lastReadAt <= b.lastReadAt
    ensures exists j :: 0 <= j < |books| && IsCopy(lib, books[j], b.bookId) && books[j].lastReadAt == b.lastReadAt
  {
    hide IsCopy;
  }
}
