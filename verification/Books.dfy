// Books of the reading ledger: merging duplicates (src/ReadingStatsStore.cpp).
module Books {
  import opened ReadingDays

  datatype Book = Book(bookId: string, path: string, knownPaths: seq<string>, title: string, author: string,
                       coverBmpPath: string, chapterTitle: string, readingDays: seq<DayStats>,
                       totalReadingMs: nat, sessions: nat, lastSessionMs: nat,
                       firstReadAt: nat, lastReadAt: nat, completedAt: nat,
                       lastProgressPercent: nat, chapterProgressPercent: nat, completed: bool)

  // What the store asks of the file system and of BookIdentity: path normalisation, the stable id
  // of a path, its lower-case extension, whether a file exists, and whether a path is ignored.
  datatype Library = Library(normalizePath: string -> string, resolveStableBookId: string -> string,
                             extension: string -> string, exists_: string -> bool, ignored: string -> bool)

  predicate IsLegacyBookId(bookId: string) {
    "legacy:" <= bookId
  }

  // ----- sets of strings kept as sorted lists -----

  // The order of std::string.
  predicate Precedes(a: string, b: string) {
    b != "" && (a == "" || a[0] < b[0] || (a[0] == b[0] && Precedes(a[1..], b[1..])))
  }

  function InsertString(sorted: seq<string>, v: string): seq<string> {
    if sorted == [] then [v]
    else if sorted[0] == v then sorted
    else if Precedes(v, sorted[0]) then [v] + sorted
    else [sorted[0]] + InsertString(sorted[1..], v)
  }

  // dedupeStrings: without empty strings, in order, each one once.
  function Deduped(values: seq<string>): seq<string> {
    if values == [] then []
    else if values[|values| - 1] == "" then Deduped(values[..|values| - 1])
    else InsertString(Deduped(values[..|values| - 1]), values[|values| - 1])
  }

  lemma {:induction false} InsertStringMembers(sorted: seq<string>, v: string)
    ensures forall x :: x in InsertString(sorted, v) <==> x in sorted || x == v
  {
    if sorted != [] && sorted[0] != v && !Precedes(v, sorted[0]) {
      InsertStringMembers(sorted[1..], v);
    }
  }

  // Exactly one of two different strings precedes the other.
  lemma {:induction false} PrecedesIsTotal(a: string, b: string)
    ensures !(Precedes(a, b) && Precedes(b, a))
    ensures a == b || Precedes(a, b) || Precedes(b, a)
    ensures a == b ==> !Precedes(a, b)
    decreases |a|
  {
    if a != "" && b != "" && a[0] == b[0] {
      PrecedesIsTotal(a[1..], b[1..]);
      assert a == [a[0]] + a[1..] && b == [b[0]] + b[1..];
    }
  }

  lemma {:induction false} PrecedesTransitive(a: string, b: string, c: string)
    requires Precedes(a, b) && Precedes(b, c)
    ensures Precedes(a, c)
    decreases |a|
  {
    if a != "" && a[0] == b[0] == c[0] {
      PrecedesTransitive(a[1..], b[1..], c[1..]);
    }
  }

  // In order, each string once.
  ghost predicate InOrder(values: seq<string>) {
    forall j, k :: 0 <= j < k < |values| ==> Precedes(values[j], values[k])
  }

  lemma {:induction false} InsertStringOrdered(sorted: seq<string>, v: string)
    requires InOrder(sorted)
    ensures InOrder(InsertString(sorted, v))
  {
    hide Precedes;
    if sorted != [] && sorted[0] != v {
      PrecedesIsTotal(v, sorted[0]);
      if Precedes(v, sorted[0]) {
        forall k | 0 <= k < |sorted| ensures Precedes(v, sorted[k]) {
          if k > 0 { PrecedesTransitive(v, sorted[0], sorted[k]); }
        }
      } else {
        var rest := InsertString(sorted[1..], v);
        InsertStringOrdered(sorted[1..], v);
        InsertStringMembers(sorted[1..], v);
        forall k | 0 <= k < |rest| ensures Precedes(sorted[0], rest[k]) {
          assert rest[k] in rest;
        }
      }
    }
  }

  // dedupeStrings leaves the list in order and without repeats.
  lemma {:induction false} DedupedOrdered(values: seq<string>)
    ensures InOrder(Deduped(values))
  {
    if values != [] {
      DedupedOrdered(values[..|values| - 1]);
      if values[|values| - 1] != "" {
        InsertStringOrdered(Deduped(values[..|values| - 1]), values[|values| - 1]);
      }
    }
  }

  lemma {:induction false} DedupedMembers(values: seq<string>)
    ensures forall x :: x in Deduped(values) <==> x in values && x != ""
  {
    if values != [] {
      var front, last := values[..|values| - 1], values[|values| - 1];
      DedupedMembers(front);
      InsertStringMembers(Deduped(front), last);
      assert values == front + [last];
    }
  }

  // rememberBookPath.
  function WithPath(lib: Library, b: Book, path: string): Book {
    var normalized := lib.normalizePath(path);
    if normalized == "" then b
    else b.(path := normalized, knownPaths := Deduped(b.knownPaths + [normalized]))
  }

  // ----- merging two books -----

  // The earlier of two times, where 0 stands for none.
  function EarliestKnown(x: nat, y: nat): nat {
    if x == 0 || (y != 0 && y < x) then y else x
  }

  function Latest(x: nat, y: nat): nat {
    if x < y then y else x
  }

  // A text field of the more recently read book, unless it is empty.
  function Newer(primary: string, duplicate: string, duplicateIsNewer: bool): string {
    if primary == "" || (duplicate != "" && duplicateIsNewer) then duplicate else primary
  }

  // mergeBookInto.
  function Merge(lib: Library, p: Book, d: Book): Book {
    var newer := d.lastReadAt >= p.lastReadAt;
    var lastReadAt := Latest(p.lastReadAt, d.lastReadAt);
    Book(
      if p.bookId == "" || (IsLegacyBookId(p.bookId) && !IsLegacyBookId(d.bookId)) then d.bookId else p.bookId,
      if (p.path != "" && !lib.exists_(p.path) && d.path != "" && lib.exists_(d.path))
         || (d.path != "" && d.lastReadAt > p.lastReadAt) then d.path else p.path,
      Deduped(p.knownPaths + [d.path] + d.knownPaths),
      Newer(p.title, d.title, newer), Newer(p.author, d.author, newer),
      Newer(p.coverBmpPath, d.coverBmpPath, newer), Newer(p.chapterTitle, d.chapterTitle, newer),
      Normalized(p.readingDays + d.readingDays),
      p.totalReadingMs + d.totalReadingMs, p.sessions + d.sessions, Latest(p.lastSessionMs, d.lastSessionMs),
      EarliestKnown(p.firstReadAt, d.firstReadAt), lastReadAt, EarliestKnown(p.completedAt, d.completedAt),
      if d.lastReadAt >= lastReadAt then d.lastProgressPercent else Latest(p.lastProgressPercent, d.lastProgressPercent),
      if d.lastReadAt >= lastReadAt then d.chapterProgressPercent
      else Latest(p.chapterProgressPercent, d.chapterProgressPercent),
      p.completed || d.completed)
  }

  // normalizeBook.
  function NormalizedBook(lib: Library, b: Book): Book {
    var b1 := if b.bookId == "" then b.(bookId := lib.resolveStableBookId(b.path)) else b;
    var b2 := if b1.path == "" && b1.knownPaths != [] then b1.(path := b1.knownPaths[0]) else b1;
    var b3 := WithPath(lib, b2, b2.path);
    b3.(readingDays := Normalized(b3.readingDays))
  }

  // ----- merging all duplicates -----

  // b is another copy of the book with this id.
  predicate SameId(id: string, b: Book) {
    id != "" && b.bookId == id
  }

  // p with all its duplicates in rest merged into it, in order.
  function Absorb(lib: Library, p: Book, rest: seq<Book>): Book {
    if rest == [] then p
    else
      var q := Absorb(lib, p, rest[..|rest| - 1]);
      if SameId(q.bookId, rest[|rest| - 1]) then Merge(lib, q, rest[|rest| - 1]) else q
  }

  // The books of rest that are not duplicates of the book with this id.
  function Others(id: string, rest: seq<Book>): (r: seq<Book>)
    ensures |r| <= |rest|
  {
    if rest == [] then []
    else
      var r := Others(id, rest[..|rest| - 1]);
      if SameId(id, rest[|rest| - 1]) then r else r + [rest[|rest| - 1]]
  }

  function MergedBooks(lib: Library, books: seq<Book>): seq<Book>
    decreases |books|
  {
    if books == [] then []
    else [Absorb(lib, books[0], books[1..])] + MergedBooks(lib, Others(books[0].bookId, books[1..]))
  }

  function NormalizedAll(lib: Library, books: seq<Book>): (r: seq<Book>)
    ensures |r| == |books|
  {
    seq(|books|, k requires 0 <= k < |books| => NormalizedBook(lib, books[k]))
  }

  lemma {:induction false} AbsorbKeepsId(lib: Library, p: Book, rest: seq<Book>)
    ensures Absorb(lib, p, rest).bookId == p.bookId
  {
    if rest != [] {
      AbsorbKeepsId(lib, p, rest[..|rest| - 1]);
    }
  }

  method NormalizeEach(lib: Library, books0: seq<Book>) returns (books: seq<Book>)
    ensures books == NormalizedAll(lib, books0)
  {
    hide NormalizedBook;
    books := [];
    for i := 0 to |books0|
      invariant books == NormalizedAll(lib, books0)[..i]
    {
      books := books + [NormalizedBook(lib, books0[i])];
    }
  }

  // One more book is done when its duplicates have been absorbed.
  lemma OneMoreMerged(lib: Library, books: seq<Book>, p: nat, next: seq<Book>)
    requires p < |books|
    requires next == books[..p] + [Absorb(lib, books[p], books[p + 1..])] + Others(books[p].bookId, books[p + 1..])
    ensures p < |next| <= |books|
    ensures books[..p] + MergedBooks(lib, books[p..]) == next[..p + 1] + MergedBooks(lib, next[p + 1..])
  {
    hide Absorb, Others;
    assert books[p..][0] == books[p] && books[p..][1..] == books[p + 1..];
    assert next[..p + 1] == books[..p] + [Absorb(lib, books[p], books[p + 1..])];
    assert next[p + 1..] == Others(books[p].bookId, books[p + 1..]);
  }

  // normalizeBooks: normalise each, then merge every later duplicate into its first occurrence.
  method NormalizeBooks(lib: Library, books0: seq<Book>) returns (books: seq<Book>)
    ensures books == MergedBooks(lib, NormalizedAll(lib, books0))
  {
    hide MergedBooks, Absorb, Others, NormalizedAll;
    books := NormalizeEach(lib, books0);
    ghost var normalized := books;
    assert books[..0] == [] && books[0..] == books;
    var primaryIndex := 0;
    while primaryIndex < |books|
      invariant 0 <= primaryIndex <= |books|
      invariant MergedBooks(lib, normalized) == books[..primaryIndex] + MergedBooks(lib, books[primaryIndex..])
      decreases |books| - primaryIndex
    {
      ghost var before := books;
      books := MergeDuplicates(lib, books, primaryIndex);
      OneMoreMerged(lib, before, primaryIndex, books);
      primaryIndex := primaryIndex + 1;
    }
    assert books[..primaryIndex] == books && books[primaryIndex..] == [];
    NoneToMerge(lib);
  }

  lemma NoneToMerge(lib: Library)
    ensures MergedBooks(lib, []) == []
  {
  }

  // The inner loop: duplicates of books[primaryIndex] are merged into it and erased.
  method MergeDuplicates(lib: Library, books0: seq<Book>, primaryIndex: nat) returns (books: seq<Book>)
    requires primaryIndex < |books0|
    ensures var p, rest := books0[primaryIndex], books0[primaryIndex + 1..];
            books == books0[..primaryIndex] + [Absorb(lib, p, rest)] + Others(p.bookId, rest)
  {
    hide Merge, Absorb, Others;
    books := books0;
    ghost var before := books0[..primaryIndex];
    ghost var p, rest := books0[primaryIndex], books0[primaryIndex + 1..];
    ghost var seen := 0;
    var duplicateIndex := primaryIndex + 1;
    NothingSeen(lib, p, rest);
    while duplicateIndex < |books|
      invariant 0 <= seen <= |rest| && duplicateIndex == primaryIndex + 1 + |Others(p.bookId, rest[..seen])|
      invariant books == before + [Absorb(lib, p, rest[..seen])] + Others(p.bookId, rest[..seen]) + rest[seen..]
      decreases |rest| - seen
    {
      ghost var q, others := Absorb(lib, p, rest[..seen]), Others(p.bookId, rest[..seen]);
      assert rest[seen..] == [rest[seen]] + rest[seen + 1..];
      EraseOrPass(before, q, others, rest[seen], rest[seen + 1..], Merge(lib, q, rest[seen]));
      OneMoreSeen(lib, p, rest, seen);
      seen := seen + 1;
      if books[primaryIndex].bookId != "" && books[primaryIndex].bookId == books[duplicateIndex].bookId {
        books := books[primaryIndex := Merge(lib, books[primaryIndex], books[duplicateIndex])];
        books := books[..duplicateIndex] + books[duplicateIndex + 1..];
        continue;
      }
      duplicateIndex := duplicateIndex + 1;
    }
    assert rest[..seen] == rest && rest[seen..] == [];
  }

  lemma NothingSeen(lib: Library, p: Book, rest: seq<Book>)
    ensures Absorb(lib, p, rest[..0]) == p && Others(p.bookId, rest[..0]) == [] && rest[0..] == rest
  {
  }

  lemma OneMoreSeen(lib: Library, p: Book, rest: seq<Book>, seen: nat)
    requires seen < |rest|
    ensures var q, x := Absorb(lib, p, rest[..seen]), rest[seen];
            && q.bookId == p.bookId
            && Absorb(lib, p, rest[..seen + 1])
               == (if q.bookId != "" && q.bookId == x.bookId then Merge(lib, q, x) else q)
            && Others(p.bookId, rest[..seen + 1])
               == Others(p.bookId, rest[..seen]) + if q.bookId != "" && q.bookId == x.bookId then [] else [x]
  {
    hide Merge;
    assert rest[..seen + 1][..seen] == rest[..seen] && rest[..seen + 1][seen] == rest[seen];
    AbsorbKeepsId(lib, p, rest[..seen]);
  }

  // Replacing the primary and erasing the duplicate, or passing over a different book.
  lemma EraseOrPass<T>(before: seq<T>, q: T, others: seq<T>, x: T, tail: seq<T>, merged: T)
    ensures var s, i, j := before + [q] + others + ([x] + tail), |before|, |before| + 1 + |others|;
            && s[i] == q && s[j] == x
            && s[i := merged][..j] + s[i := merged][j + 1..] == before + [merged] + others + tail
            && s == before + [q] + (others + [x]) + tail
  {
  }

  // ----- what merging keeps -----

  predicate HasId(books: seq<Book>, id: string) {
    exists k :: 0 <= k < |books| && books[k].bookId == id
  }

  // A figure of all books with this id, gathered from the first to the last of them.
  ghost function GatherFrom<T>(acc: T, books: seq<Book>, id: string, f: Book -> T, op: (T, T) -> T): T {
    if books == [] then acc
    else
      var a := GatherFrom(acc, books[..|books| - 1], id, f, op);
      if books[|books| - 1].bookId == id then op(a, f(books[|books| - 1])) else a
  }

  ghost function Gather<T>(books: seq<Book>, id: string, f: Book -> T, op: (T, T) -> T): T
    requires HasId(books, id)
  {
    if books[0].bookId == id then GatherFrom(f(books[0]), books[1..], id, f, op)
    else
      (HasIdLater(books, id); Gather(books[1..], id, f, op))
  }

  lemma HasIdLater(books: seq<Book>, id: string)
    requires HasId(books, id) && books[0].bookId != id
    ensures HasId(books[1..], id)
  {
    var k :| 0 <= k < |books| && books[k].bookId == id;
    assert books[1..][k - 1].bookId == id;
  }

  // Merging two copies combines the figure.
  ghost predicate Combines<T(!new)>(lib: Library, f: Book -> T, op: (T, T) -> T) {
    forall p: Book, d: Book :: p.bookId == d.bookId != "" ==> f(Merge(lib, p, d)) == op(f(p), f(d))
  }

  lemma {:induction false} AbsorbGathers<T(!new)>(lib: Library, p: Book, rest: seq<Book>, f: Book -> T, op: (T, T) -> T)
    requires Combines(lib, f, op) && p.bookId != ""
    ensures f(Absorb(lib, p, rest)) == GatherFrom(f(p), rest, p.bookId, f, op)
  {
    hide Merge;
    if rest != [] {
      AbsorbGathers(lib, p, rest[..|rest| - 1], f, op);
      AbsorbKeepsId(lib, p, rest[..|rest| - 1]);
    }
  }

  lemma {:induction false} OthersKeep<T>(id: string, other: string, rest: seq<Book>, acc: T, f: Book -> T, op: (T, T) -> T)
    requires other != id
    ensures GatherFrom(acc, Others(id, rest), other, f, op) == GatherFrom(acc, rest, other, f, op)
  {
    if rest != [] {
      var front, last := rest[..|rest| - 1], rest[|rest| - 1];
      OthersKeep(id, other, front, acc, f, op);
      if !SameId(id, last) {
        assert (Others(id, front) + [last])[..|Others(id, front)|] == Others(id, front);
      }
    }
  }

  lemma {:induction false} OthersIds(id: string, rest: seq<Book>, other: string)
    ensures HasId(Others(id, rest), other) <==> HasId(rest, other) && (id == "" || other != id)
  {
    if rest != [] {
      var front, last := rest[..|rest| - 1], rest[|rest| - 1];
      OthersIds(id, front, other);
      IdsAppend(front, last, other);
      IdsAppend(Others(id, front), last, other);
      assert rest == front + [last];
    }
  }

  lemma IdsAppend(books: seq<Book>, last: Book, id: string)
    ensures HasId(books + [last], id) <==> HasId(books, id) || last.bookId == id
  {
    if HasId(books, id) {
      var k :| 0 <= k < |books| && books[k].bookId == id;
      assert (books + [last])[k].bookId == id;
    }
    assert (books + [last])[|books|] == last;
  }

  lemma IdsPrepend(first: Book, books: seq<Book>, id: string)
    ensures HasId([first] + books, id) <==> first.bookId == id || HasId(books, id)
  {
    if HasId(books, id) {
      var k :| 0 <= k < |books| && books[k].bookId == id;
      assert ([first] + books)[k + 1].bookId == id;
    }
    assert ([first] + books)[0] == first;
  }

  // Removing the duplicates of one id leaves the figure of every other id alone.
  lemma {:induction false} GatherOthers<T>(id: string, rest: seq<Book>, other: string, f: Book -> T, op: (T, T) -> T)
    requires other != id && HasId(rest, other)
    ensures HasId(Others(id, rest), other)
    ensures Gather(Others(id, rest), other, f, op) == Gather(rest, other, f, op)
    decreases |rest|
  {
    OthersIds(id, rest, other);
    OthersFront(id, rest);
    if rest[0].bookId == other {
      OthersKeep(id, other, rest[1..], f(rest[0]), f, op);
      assert Others(id, rest) == [rest[0]] + Others(id, rest[1..]);
      assert Others(id, rest)[1..] == Others(id, rest[1..]);
    } else {
      HasIdLater(rest, other);
      GatherOthers(id, rest[1..], other, f, op);
      if SameId(id, rest[0]) {
        assert Others(id, rest) == Others(id, rest[1..]);
      } else {
        assert Others(id, rest)[1..] == Others(id, rest[1..]);
      }
    }
  }

  lemma OthersAppend(id: string, front: seq<Book>, last: Book)
    ensures Others(id, front + [last]) == Others(id, front) + if SameId(id, last) then [] else [last]
  {
    hide SameId;
    assert (front + [last])[..|front|] == front;
  }

  lemma {:induction false} OthersFront(id: string, rest: seq<Book>)
    requires rest != []
    ensures Others(id, rest) == (if SameId(id, rest[0]) then [] else [rest[0]]) + Others(id, rest[1..])
  {
    hide SameId;
    var front, last := rest[..|rest| - 1], rest[|rest| - 1];
    if front == [] {
      assert rest[1..] == [];
    } else {
      hide Others;
      OthersFront(id, front);
      OthersAppend(id, front, last);
      OthersAppend(id, front[1..], last);
      assert rest == front + [last] && rest[1..] == front[1..] + [last];
    }
  }

  // Every surviving book carries the figure gathered from all the books with its id.
  lemma {:induction false} MergedGathers<T(!new)>(lib: Library, books: seq<Book>, f: Book -> T, op: (T, T) -> T, k: nat)
    requires Combines(lib, f, op)
    requires k < |MergedBooks(lib, books)| && MergedBooks(lib, books)[k].bookId != ""
    ensures var b := MergedBooks(lib, books)[k];
            HasId(books, b.bookId) && f(b) == Gather(books, b.bookId, f, op)
    decreases |books|
  {
    hide Merge, Combines;
    var first, rest := books[0], books[1..];
    var others := Others(first.bookId, rest);
    var b := MergedBooks(lib, books)[k];
    AbsorbKeepsId(lib, first, rest);
    assert books == [first] + rest;
    IdsPrepend(first, rest, b.bookId);
    if k == 0 {
      AbsorbGathers(lib, first, rest, f, op);
    } else {
      assert b == MergedBooks(lib, others)[k - 1];
      MergedGathers(lib, others, f, op, k - 1);
      OthersIds(first.bookId, rest, b.bookId);
      NotFirst(lib, books, k);
      GatherOthers(first.bookId, rest, b.bookId, f, op);
    }
  }

  lemma {:induction false} MergedIds(lib: Library, books: seq<Book>, id: string)
    ensures HasId(MergedBooks(lib, books), id) <==> HasId(books, id)
    decreases |books|
  {
    hide Merge;
    if books != [] {
      var first, rest := books[0], books[1..];
      MergedIds(lib, Others(first.bookId, rest), id);
      OthersIds(first.bookId, rest, id);
      AbsorbKeepsId(lib, first, rest);
      IdsPrepend(Absorb(lib, first, rest), MergedBooks(lib, Others(first.bookId, rest)), id);
      assert books == [first] + rest;
      IdsPrepend(first, rest, id);
    }
  }

  // A later survivor does not share the first one's id.
  lemma NotFirst(lib: Library, books: seq<Book>, k: nat)
    requires 0 < k < |MergedBooks(lib, books)| && MergedBooks(lib, books)[k].bookId != ""
    ensures MergedBooks(lib, books)[k].bookId != books[0].bookId
  {
    hide Merge;
    var others := Others(books[0].bookId, books[1..]);
    var id := MergedBooks(lib, books)[k].bookId;
    assert MergedBooks(lib, others)[k - 1].bookId == id;
    MergedIds(lib, others, id);
    OthersIds(books[0].bookId, books[1..], id);
  }

  // Afterwards no two books share a non-empty id.
  lemma {:induction false} MergedDistinct(lib: Library, books: seq<Book>, j: nat, k: nat)
    requires j < k < |MergedBooks(lib, books)| && MergedBooks(lib, books)[k].bookId != ""
    ensures MergedBooks(lib, books)[j].bookId != MergedBooks(lib, books)[k].bookId
    decreases |books|
  {
    hide Merge;
    if j == 0 {
      NotFirst(lib, books, k);
      AbsorbKeepsId(lib, books[0], books[1..]);
    } else {
      MergedDistinct(lib, Others(books[0].bookId, books[1..]), j - 1, k - 1);
    }
  }

  // ----- the figures that merging keeps -----

  function Plus(x: nat, y: nat): nat { x + y }
  function Either(x: bool, y: bool): bool { x || y }

  function TimeOf(b: Book): nat { b.totalReadingMs }
  function SessionsOf(b: Book): nat { b.sessions }
  function DayTimeOf(d: nat): Book -> nat { (b: Book) => DayTotal(b.readingDays, d) }
  function CompletedOf(b: Book): bool { b.completed }
  function LastReadOf(b: Book): nat { b.lastReadAt }
  function LastSessionOf(b: Book): nat { b.lastSessionMs }
  function FirstReadOf(b: Book): nat { b.firstReadAt }
  function CompletedAtOf(b: Book): nat { b.completedAt }

  lemma MergeFigures(lib: Library, p: Book, q: Book)
    ensures var m := Merge(lib, p, q);
            && TimeOf(m) == Plus(TimeOf(p), TimeOf(q)) && SessionsOf(m) == Plus(SessionsOf(p), SessionsOf(q))
            && CompletedOf(m) == Either(CompletedOf(p), CompletedOf(q))
            && LastReadOf(m) == Latest(LastReadOf(p), LastReadOf(q))
            && LastSessionOf(m) == Latest(LastSessionOf(p), LastSessionOf(q))
            && FirstReadOf(m) == EarliestKnown(FirstReadOf(p), FirstReadOf(q))
            && CompletedAtOf(m) == EarliestKnown(CompletedAtOf(p), CompletedAtOf(q))
            && m.readingDays == Normalized(p.readingDays + q.readingDays)
  {
  }

  lemma DayTimeMerges(lib: Library, p: Book, q: Book, d: nat)
    ensures DayTimeOf(d)(Merge(lib, p, q)) == Plus(DayTimeOf(d)(p), DayTimeOf(d)(q))
  {
    hide Merge;
    MergeFigures(lib, p, q);
    NormalizedMeans(p.readingDays + q.readingDays);
    DayTotalConcat(p.readingDays, q.readingDays, d);
  }

  lemma DayTimeCombines(lib: Library, d: nat)
    ensures Combines(lib, DayTimeOf(d), Plus)
  {
    hide Merge, DayTimeOf, Plus;
    forall p: Book, q: Book | p.bookId == q.bookId != ""
      ensures DayTimeOf(d)(Merge(lib, p, q)) == Plus(DayTimeOf(d)(p), DayTimeOf(d)(q))
    {
      DayTimeMerges(lib, p, q, d);
    }
  }

  lemma FiguresCombine(lib: Library)
    ensures Combines(lib, TimeOf, Plus) && Combines(lib, SessionsOf, Plus)
    ensures Combines(lib, CompletedOf, Either)
    ensures Combines(lib, LastReadOf, Latest) && Combines(lib, LastSessionOf, Latest)
    ensures Combines(lib, FirstReadOf, EarliestKnown) && Combines(lib, CompletedAtOf, EarliestKnown)
  {
    hide Merge, Plus, Either, Latest, EarliestKnown;
    hide TimeOf, SessionsOf, CompletedOf, LastReadOf, LastSessionOf, FirstReadOf, CompletedAtOf;
    forall p: Book, q: Book {
      MergeFigures(lib, p, q);
    }
  }

  // normalizeBooks conserves, per id, the reading time, the sessions and the time of each day.
  lemma MergingConserves(lib: Library, books: seq<Book>, k: nat, d: nat)
    requires k < |MergedBooks(lib, books)| && MergedBooks(lib, books)[k].bookId != ""
    ensures var b := MergedBooks(lib, books)[k];
            && HasId(books, b.bookId)
            && b.totalReadingMs == Gather(books, b.bookId, TimeOf, Plus)
            && b.sessions == Gather(books, b.bookId, SessionsOf, Plus)
            && DayTotal(b.readingDays, d) == Gather(books, b.bookId, DayTimeOf(d), Plus)
  {
    hide MergedBooks, Gather, Combines;
    FiguresCombine(lib);
    DayTimeCombines(lib, d);
    MergedGathers(lib, books, TimeOf, Plus, k);
    MergedGathers(lib, books, SessionsOf, Plus, k);
    MergedGathers(lib, books, DayTimeOf(d), Plus, k);
  }

  // Completion is the disjunction, the last reading and the longest last session the maximum, and
  // the first reading the earliest known, of all the copies.
  lemma MergingCombinesMarks(lib: Library, books: seq<Book>, k: nat)
    requires k < |MergedBooks(lib, books)| && MergedBooks(lib, books)[k].bookId != ""
    ensures var b := MergedBooks(lib, books)[k];
            && HasId(books, b.bookId)
            && b.completed == Gather(books, b.bookId, CompletedOf, Either)
            && b.lastReadAt == Gather(books, b.bookId, LastReadOf, Latest)
            && b.lastSessionMs == Gather(books, b.bookId, LastSessionOf, Latest)
            && b.firstReadAt == Gather(books, b.bookId, FirstReadOf, EarliestKnown)
            && b.completedAt == Gather(books, b.bookId, CompletedAtOf, EarliestKnown)
  {
    hide MergedBooks, Gather, Combines;
    FiguresCombine(lib);
    MergedGathers(lib, books, CompletedOf, Either, k);
    MergedGathers(lib, books, LastReadOf, Latest, k);
    MergedGathers(lib, books, LastSessionOf, Latest, k);
    MergedGathers(lib, books, FirstReadOf, EarliestKnown, k);
    MergedGathers(lib, books, CompletedAtOf, EarliestKnown, k);
  }

  // ----- days of all books -----

  ghost predicate DaysOk(b: Book) {
    Sorted(b.readingDays) && NoDayZero(b.readingDays)
  }

  ghost predicate AllDaysOk(books: seq<Book>) {
    forall k :: 0 <= k < |books| ==> DaysOk(books[k])
  }

  lemma NormalizedBookDays(lib: Library, b: Book)
    requires NoDayZero(b.readingDays)
    ensures DaysOk(NormalizedBook(lib, b))
  {
    NormalizedMeans(b.readingDays);
    NormalizedNoDayZero(b.readingDays);
  }

  lemma {:induction false} AbsorbDays(lib: Library, p: Book, rest: seq<Book>)
    requires DaysOk(p) && AllDaysOk(rest)
    ensures DaysOk(Absorb(lib, p, rest))
  {
    if rest != [] {
      var q, last := Absorb(lib, p, rest[..|rest| - 1]), rest[|rest| - 1];
      AbsorbDays(lib, p, rest[..|rest| - 1]);
      assert DaysOk(last);
      NormalizedMeans(q.readingDays + last.readingDays);
      NormalizedNoDayZero(q.readingDays + last.readingDays);
    }
  }

  lemma {:induction false} OthersDays(id: string, rest: seq<Book>)
    requires AllDaysOk(rest)
    ensures AllDaysOk(Others(id, rest))
  {
    if rest != [] {
      OthersDays(id, rest[..|rest| - 1]);
    }
  }

  // Every surviving book's days are strictly sorted.
  lemma {:induction false} MergedDays(lib: Library, books: seq<Book>)
    requires AllDaysOk(books)
    ensures AllDaysOk(MergedBooks(lib, books))
    decreases |books|
  {
    hide Merge, DaysOk;
    if books != [] {
      AbsorbDays(lib, books[0], books[1..]);
      OthersDays(books[0].bookId, books[1..]);
      MergedDays(lib, Others(books[0].bookId, books[1..]));
    }
  }
}
