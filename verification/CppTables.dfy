// What the compiled arrays hold, against the offsets computed from the texts (scripts/gen_i18n.py): texts
// with escapes of their own are shorter once compiled.
module CppTables {
  import opened Wrappers
  import opened Utf8
  import opened StringTable
  import opened CppLiteral
  import opened CppRoundTrip

  // ----- texts with escapes of their own -----

  // The text has no escapes of its own: no backslash is the last character, or followed by one of n, t, r,
  // ", another backslash or a newline, or by an x with anything like two characters after it.
  predicate Literal(s: string)
    decreases |s|
  {
    s == ""
    || (if s[0] != '\\' then Literal(s[1..])
        else |s| > 1 && LetterEscape(s[1]).None? && s[1] != '\n' && !(s[1] == 'x' && |Newlines(s)| > 3) && Literal(s[1..]))
  }

  // The ways in which a text can start, newlines replaced.
  lemma OrdinaryStart(s: string)
    requires s != "" && s[0] != '\\'
    ensures EntryMeaning(s) == Join(Some(CharBytes(s[0])), EntryMeaning(s[1..]))
  {
    var n, rest := Newlines(s), Newlines(s[1..]);
    if s[0] == '\n' {
      assert n == "\\n" + rest;
      NewlineMeans(rest);
    } else {
      assert n == [s[0]] + rest && n[1..] == rest;
    }
  }

  lemma BackslashNewline(s: string)
    requires |s| > 1 && s[0] == '\\' && s[1] == '\n'
    ensures EntryMeaning(s) == Join(Some([92, 110]), EntryMeaning(s[2..]))
  {
    var rest, n := Newlines(s[2..]), Newlines(s);
    assert s[1..][1..] == s[2..];
    assert Newlines(s[1..]) == "\\n" + rest;
    assert n == "\\\\n" + rest;
    assert n[2..] == "n" + rest && ("n" + rest)[1..] == rest && ("n" + rest)[0] == 'n';
    MeaningUnfolds(n);
    assert CharBytes('n') == [110];
    assert Meaning("n" + rest) == Join(Some([110]), Meaning(rest));
    JoinAssociates(Some([92]), Some([110]), Meaning(rest));
    assert [92] + [110] == [92, 110];
  }

  lemma BackslashOther(s: string)
    requires |s| > 1 && s[0] == '\\' && s[1] != '\n'
    ensures var n := Newlines(s);
            |n| > 1 && n[0] == '\\' && n[1] == s[1] && n[2..] == Newlines(s[2..]) && n[1..] == Newlines(s[1..])
  {
    assert s[1..][1..] == s[2..];
    assert Newlines(s[1..]) == [s[1]] + Newlines(s[2..]);
    assert Newlines(s) == [s[0], s[1]] + Newlines(s[2..]);
  }

  lemma LetterStart(s: string)
    requires |s| > 1 && s[0] == '\\' && LetterEscape(s[1]).Some?
    ensures EntryMeaning(s) == Join(Some([LetterEscape(s[1]).value]), EntryMeaning(s[2..]))
  {
    hide Meaning;
    BackslashOther(s);
    MeaningUnfolds(Newlines(s));
  }

  lemma HexStart(s: string)
    requires |s| > 1 && s[0] == '\\' && s[1] == 'x' && |Newlines(s)| > 3
    ensures EntryMeaning(s).Some? ==>
              |s| > 3 && HexMeaning(s[2], s[3]).Some? && EntryMeaning(s) == Join(HexMeaning(s[2], s[3]), EntryMeaning(s[4..]))
  {
    hide HexMeaning;
    var n := Newlines(s);
    BackslashOther(s);
    HexUnfolds(n);
    HexOfPlain(n[2], n[3]);
    if HexMeaning(n[2], n[3]).Some? {
      PlainStart(s[2..]);
      assert s[2..][1..] == s[3..] && s[2..][0] == s[2];
      PlainStart(s[3..]);
      assert s[3..][1..] == s[4..] && s[3..][0] == s[3];
      assert n == [s[0], s[1], s[2], s[3]] + Newlines(s[4..]);
    }
  }

  lemma HexUnfolds(n: string)
    requires |n| > 3 && n[0] == '\\' && n[1] == 'x'
    ensures Meaning(n) == Join(HexMeaning(n[2], n[3]), Meaning(n[4..]))
  {
    hide HexMeaning;
    assert LetterEscape('x').None?;
  }

  lemma HexOfPlain(high: char, low: char)
    ensures HexMeaning(high, low).Some? ==> high != '\\' && low != '\\' && |HexMeaning(high, low).value| <= 1 + |CharBytes(low)|
  {
  }

  lemma PlainStart(s: string)
    requires Newlines(s) != "" && Newlines(s)[0] != '\\'
    ensures s != "" && Newlines(s) == [s[0]] + Newlines(s[1..])
  {
  }

  lemma OtherStart(s: string)
    requires |s| > 1 && s[0] == '\\' && s[1] != '\n' && LetterEscape(s[1]).None? && !(s[1] == 'x' && |Newlines(s)| > 3)
    ensures EntryMeaning(s) == Join(Some([92]), EntryMeaning(s[1..]))
  {
    BackslashOther(s);
  }

  lemma NoStart()
    ensures EntryMeaning("") == Some([0]) && Entry("") == [0] && Literal("")
    ensures EntryMeaning("\\") == Some([92, 48]) && Entry("\\") == [92, 0] && !Literal("\\")
  {
    assert "\\"[1..] == "" && Newlines("") == "" && Newlines("\\") == "\\" && Utf8Of("") == [];
    assert CharBytes('\\') == [92] && Utf8Of("\\") == [92] + [];
    assert [92] + [0] == [92, 0] && [] + [0] == [0];
  }

  lemma EntryStart(s: string)
    requires s != ""
    ensures Entry(s) == CharBytes(s[0]) + Entry(s[1..])
    ensures s[0] == '\n' ==> CharBytes(s[0]) == [10]
    ensures s[0] == '\\' ==> CharBytes(s[0]) == [92]
  {
    hide CharBytes;
    assert CharBytes(s[0]) + Utf8Of(s[1..]) + [0] == CharBytes(s[0]) + (Utf8Of(s[1..]) + [0]);
    NewlineByte();
  }

  lemma NewlineByte()
    ensures CharBytes('\n') == [10] && CharBytes('\\') == [92]
  {
  }

  // What a text compiles to is never longer than its bytes and the separator, and the same exactly for
  // literal text.
  lemma {:induction false} MeaningIsNoLonger(s: string)
    ensures EntryMeaning(s).Some? ==> |EntryMeaning(s).value| <= |Entry(s)|
    decreases |s|
  {
    hide EntryMeaning, Entry, Newlines, HexMeaning, LetterEscape, CharBytes, Literal;
    NoStart();
    if s != "" && s != "\\" {
      EntryStart(s);
      if s[0] != '\\' {
        OrdinaryStart(s);
        MeaningIsNoLonger(s[1..]);
      } else {
        EntryStart(s[1..]);
        assert s[1..][1..] == s[2..] && s[1..][0] == s[1];
        if s[1] == '\n' {
          BackslashNewline(s);
          MeaningIsNoLonger(s[2..]);
        } else if LetterEscape(s[1]).Some? {
          LetterStart(s);
          MeaningIsNoLonger(s[2..]);
        } else if s[1] == 'x' && |Newlines(s)| > 3 {
          HexIsShorter(s);
        } else {
          OtherStart(s);
          MeaningIsNoLonger(s[1..]);
        }
      }
    }
  }

  lemma HexIsShorter(s: string)
    requires |s| > 1 && s[0] == '\\' && s[1] == 'x' && |Newlines(s)| > 3
    ensures EntryMeaning(s).Some? ==> |EntryMeaning(s).value| < |Entry(s)|
    decreases |s|, 0
  {
    hide EntryMeaning, Entry, Newlines, HexMeaning, LetterEscape, CharBytes, Literal;
    HexStart(s);
    if EntryMeaning(s).Some? {
      MeaningIsNoLonger(s[4..]);
      HexOfPlain(s[2], s[3]);
      EntryStart(s);
      EntryStart(s[1..]);
      EntryStart(s[2..]);
      EntryStart(s[3..]);
      assert s[1..][1..] == s[2..] && s[2..][1..] == s[3..] && s[3..][1..] == s[4..] && s[3..][0] == s[3];
    }
  }

  lemma {:induction false} LiteralIsExact(s: string)
    ensures EntryMeaning(s) == Some(Entry(s)) <==> Literal(s)
    decreases |s|
  {
    hide EntryMeaning, Entry, Newlines, HexMeaning, LetterEscape, CharBytes;
    NoStart();
    if s != "" && s != "\\" {
      EntryStart(s);
      if s[0] != '\\' {
        OrdinaryStart(s);
        LiteralIsExact(s[1..]);
        SameAfter(CharBytes(s[0]), EntryMeaning(s[1..]), Entry(s[1..]));
      } else {
        EntryStart(s[1..]);
        assert s[1..][0] == s[1] && s[1..][1..] == s[2..];
        if s[1] == '\n' {
          BackslashNewline(s);
          assert Entry(s)[1] == 10;
        } else if LetterEscape(s[1]).Some? {
          LetterStart(s);
          MeaningIsNoLonger(s[2..]);
        } else if s[1] == 'x' && |Newlines(s)| > 3 {
          HexIsShorter(s);
        } else {
          OtherStart(s);
          LiteralIsExact(s[1..]);
          SameAfter([92], EntryMeaning(s[1..]), Entry(s[1..]));
        }
      }
    }
  }

  lemma SameAfter(a: seq<byte>, x: Option<seq<byte>>, y: seq<byte>)
    ensures Join(Some(a), x) == Some(a + y) <==> x == Some(y)
  {
    assert x.Some? ==> (a + x.value)[|a|..] == x.value;
    assert (a + y)[|a|..] == y;
  }

  // ----- whole blobs -----

  // All literals of a data array.
  function Printed(strings: seq<string>): seq<string> {
    if strings == [] then [] else Printed(strings[..|strings| - 1]) + Formatted(EntrySegments(strings[|strings| - 1]))
  }

  method PrintBlob(strings: seq<string>) returns (lines: seq<string>)
    ensures lines == Printed(if strings == [] then [""] else strings)
  {
    lines := [];
    for i := 0 to |strings|
      invariant lines == Printed(strings[..i])
    {
      assert strings[..i + 1][..i] == strings[..i];
      lines := AppendStringDataEntry(lines, strings[i]);
    }
    assert strings[..|strings|] == strings;
    if strings == [] {
      assert [""][..0] == [];
      lines := AppendStringDataEntry(lines, "");
    }
  }

  predicate Unbroken(strings: seq<string>) {
    forall k :: 0 <= k < |strings| ==> NoBreaks(EntrySegments(strings[k]))
  }

  predicate AllLiteral(strings: seq<string>) {
    forall k :: 0 <= k < |strings| ==> Literal(strings[k])
  }

  // The meanings of the strings, one after the other; None if one of them means nothing.
  function MeaningBlob(strings: seq<string>): Option<seq<byte>> {
    if strings == [] then Some([]) else Join(MeaningBlob(strings[..|strings| - 1]), EntryMeaning(strings[|strings| - 1]))
  }

  lemma LastOfAll(strings: seq<string>)
    requires strings != []
    ensures Unbroken(strings) <==> Unbroken(strings[..|strings| - 1]) && NoBreaks(EntrySegments(strings[|strings| - 1]))
    ensures AllLiteral(strings) <==> AllLiteral(strings[..|strings| - 1]) && Literal(strings[|strings| - 1])
  {
    hide NoBreaks, EntrySegments, Literal;
  }

  // The literals of an array compile to the meanings of its strings, each with its separator, if and only
  // if no line of any of them is cut inside an escape.
  lemma {:induction false} BlobRoundTrip(strings: seq<string>)
    ensures var r, u := DecodeLines(Printed(strings)), MeaningBlob(strings);
            && (u.None? ==> r.None?)
            && (u.Some? ==> (r == u <==> Unbroken(strings)))
            && (if Unbroken(strings) then r == u else Spoiled(r, u))
  {
    if strings != [] {
      hide DecodeLines, NoBreaks, EntrySegments, Formatted, Unbroken, EntryMeaning;
      var front, last := strings[..|strings| - 1], strings[|strings| - 1];
      LastOfAll(strings);
      BlobRoundTrip(front);
      EntryRoundTrip(last);
      DecodeConcat(Printed(front), Formatted(EntrySegments(last)));
      JoinSpoils(DecodeLines(Printed(front)), MeaningBlob(front), DecodeLines(Formatted(EntrySegments(last))), EntryMeaning(last));
    } else {
      NothingDecodes();
    }
  }

  // The meanings are the blob whose lengths the offsets were computed from exactly when no string has
  // escapes of its own.
  lemma {:induction false} OffsetsFit(strings: seq<string>)
    ensures MeaningBlob(strings).Some? ==> |MeaningBlob(strings).value| <= |Blob(strings)|
    ensures MeaningBlob(strings) == Some(Blob(strings)) <==> AllLiteral(strings)
  {
    if strings != [] {
      hide EntryMeaning, Literal, AllLiteral, Entry;
      var front, last := strings[..|strings| - 1], strings[|strings| - 1];
      LastOfAll(strings);
      OffsetsFit(front);
      MeaningIsNoLonger(last);
      LiteralIsExact(last);
      SplitEqual(MeaningBlob(front), EntryMeaning(last), Blob(front), Entry(last));
    }
  }

  lemma SplitEqual(a: Option<seq<byte>>, x: Option<seq<byte>>, b: seq<byte>, y: seq<byte>)
    requires a.Some? && x.Some? ==> |a.value| <= |b| && |x.value| <= |y|
    ensures Join(a, x) == Some(b + y) <==> a == Some(b) && x == Some(y)
  {
    if Join(a, x) == Some(b + y) {
      assert |a.value + x.value| == |b + y|;
      assert a.value == (a.value + x.value)[..|a.value|] && b == (b + y)[..|b|];
      assert x.value == (a.value + x.value)[|a.value|..] && y == (b + y)[|b|..];
    }
  }

  // The bytes that the printed array of a table compiles to.
  function Array(t: Table): Option<seq<byte>> {
    DecodeLines(Printed(if t.strings == [] then [""] else t.strings))
  }

  // So, unless a line is cut inside an escape, the compiled array is the data that the offsets point into
  // if and only if no string has escapes of its own; and for such strings, if and only if no line is.
  lemma PrintedTableHoldsData(t: Table)
    ensures Unbroken(t.strings) ==> (Array(t) == Some(Data(t)) <==> AllLiteral(t.strings))
    ensures AllLiteral(t.strings) ==> (Array(t) == Some(Data(t)) <==> Unbroken(t.strings))
  {
    hide DecodeLines, Printed, NoBreaks, EntrySegments, EntryMeaning, Literal, Entry;
    if t.strings == [] {
      ShortEntry();
      BlobRoundTrip([""]);
      OffsetsFit([""]);
      assert [""][..0] == [];
      assert Blob([""]) == [] + Entry("") == Entry("");
    } else {
      BlobRoundTrip(t.strings);
      OffsetsFit(t.strings);
    }
  }

  lemma ShortEntry()
    ensures NoBreaks(EntrySegments("")) && Unbroken([""]) && AllLiteral([""])
  {
    NothingEscaped();
    assert "" + "\\0" == "\\0";
    assert EntrySegments("") == ["\\0"];
  }

  // ----- from the translations to the device -----

  lemma ArrayIs(t: Table, lines: seq<string>)
    requires lines == Printed(if t.strings == [] then [""] else t.strings)
    ensures DecodeLines(lines) == Array(t)
  {
  }

  // I18n::get on the compiled arrays.
  function DeviceLookup(tables: seq<Table>, l: nat, k: nat): Option<seq<byte>>
    requires l < |tables| && k < |tables[l].offsets|
  {
    var off, own := tables[l].offsets[k], Array(tables[l]);
    if Flagged(tables, l, k) then
      if Array(tables[0]).None? then None else Some(CString(Array(tables[0]).value, off % ENGLISH_FLAG))
    else if own.None? then None
    else Some(CString(own.value, off))
  }

  // Every text of a language can be printed: no escapes of its own, and no line cut inside an escape.
  predicate Printable(texts: seq<string>) {
    AllLiteral(texts) && Unbroken(texts)
  }

  lemma {:induction false} OwnPrintable(lang: seq<string>, en: seq<string>, n: nat)
    requires n <= |lang| == |en| && Printable(lang)
    ensures Printable(Own(lang, en, n))
  {
    hide Literal, NoBreaks, EntrySegments;
    if n > 0 { OwnPrintable(lang, en, n - 1); }
  }

  lemma PrintableTable(t: Table)
    requires Printable(t.strings)
    ensures Array(t) == Some(Data(t))
  {
    hide Array, Data, AllLiteral, Unbroken;
    PrintedTableHoldsData(t);
  }

  // The tables of all languages and the literals they are printed as. Compiled into the device, the
  // literals give for every key of a printable language its translation, exactly when that contains no NUL.
  method Generate(languages: seq<seq<string>>) returns (r: Option<seq<Table>>, lines: seq<seq<string>>)
    requires |languages| > 0 && Rectangular(languages)
    ensures r.Some? <==> forall l :: 0 <= l < |languages| ==> Fits(languages, l)
    ensures r.Some? ==>
              && |r.value| == |lines| == |languages|
              && (forall l :: 0 <= l < |languages| ==> |r.value[l].offsets| == |languages[0]|)
              && (forall l :: 0 <= l < |languages| ==> DecodeLines(lines[l]) == Array(r.value[l]))
              && forall l, k :: 0 <= l < |languages| && 0 <= k < |languages[0]|
                                && Printable(languages[0]) && Printable(languages[l]) ==>
                   (DeviceLookup(r.value, l, k) == Some(Utf8Of(languages[l][k])) <==> '\0' !in languages[l][k])
  {
    hide Flagged, Lookup, Utf8Of, Printed, DecodeLines, Fits, Printable, DeviceLookup, OwnStrings, Array;
    r := CompileTables(languages);
    lines := [];
    if r.None? { return; }
    ghost var tables := r.value;
    for l := 0 to |languages|
      invariant |lines| == l && forall m :: 0 <= m < l ==> DecodeLines(lines[m]) == Array(tables[m])
    {
      var printed := PrintBlob(r.value[l].strings);
      ArrayIs(r.value[l], printed);
      lines := lines + [printed];
    }
    forall l, k | 0 <= l < |languages| && 0 <= k < |languages[0]| && Printable(languages[0]) && Printable(languages[l])
      ensures DeviceLookup(tables, l, k) == Some(Utf8Of(languages[l][k])) <==> '\0' !in languages[l][k]
    {
      SameLookup(languages, tables, l, k);
    }
  }

  lemma SameLookup(languages: seq<seq<string>>, tables: seq<Table>, l: nat, k: nat)
    requires Rectangular(languages) && l < |languages| == |tables| && k < |languages[0]|
    requires Printable(languages[0]) && Printable(languages[l])
    requires tables[0].strings == OwnStrings(languages, 0) && tables[l].strings == OwnStrings(languages, l)
    requires k < |tables[l].offsets|
    ensures DeviceLookup(tables, l, k) == Some(Lookup(tables, l, k))
  {
    hide Array, Data, CString, Flagged, Printable, Own;
    if l > 0 { OwnPrintable(languages[l], languages[0], |languages[0]|); }
    PrintableTable(tables[0]);
    PrintableTable(tables[l]);
  }

  // ----- inputs that go wrong -----

  // A text that ends in a backslash swallows the separator: its entry ends in a backslash and a zero digit.
  lemma {:induction false} TrailingBackslashSwallowsSeparator(t: string)
    requires '\\' !in t
    ensures EntryMeaning(t + "\\") == Some(Utf8Of(t) + [92, 48])
  {
    hide Meaning, Newlines, CharBytes;
    NoStart();
    if t == "" {
      assert t + "\\" == "\\" && Utf8Of("") == [] && [] + [92, 48] == [92 as byte, 48];
    } else {
      var s := t + "\\";
      assert t == [t[0]] + t[1..];
      assert s[1..] == t[1..] + "\\" && s[0] == t[0];
      OrdinaryStart(s);
      TrailingBackslashSwallowsSeparator(t[1..]);
      assert CharBytes(t[0]) + (Utf8Of(t[1..]) + [92, 48]) == Utf8Of(t) + [92, 48];
    }
  }

  // A string with an escape of its own is shorter once compiled than its offset says, and every string
  // after it is looked up in the wrong place.
  lemma EscapeMovesTheRest()
    ensures var t := Table(["\\n", "b"], [0, 3]);
            IsEnglish(t.strings, t) && DeviceLookup([t], 0, 1) == Some([]) && Utf8Of("b") == [98]
  {
    hide Array, Flagged, Unbroken, MeaningBlob, DecodeLines, Printed, Blob, Utf8Of;
    var t := Table(["\\n", "b"], [0, 3]);
    ShortMeanings();
    ShortBytes();
    ShortStrings();
    BlobRoundTrip(t.strings);
    ArrayIs(t, Printed(t.strings));
    assert t.strings[..0] == [] && t.strings[..1] == ["\\n"];
    assert CString([10, 0, 98, 0], 3) == [];
    NoFlag(t);
  }

  lemma NoFlag(t: Table)
    requires |t.offsets| > 1 && t.offsets[1] == 3
    ensures !Flagged([t], 0, 1)
  {
  }

  lemma ShortMeanings()
    ensures MeaningBlob(["\\n", "b"]) == Some([10, 0, 98, 0])
  {
    hide EntryMeaning;
    var strings := ["\\n", "b"];
    NoStart();
    LetterStart("\\n");
    OrdinaryStart("b");
    assert "\\n"[2..] == "" && "b"[1..] == "" && CharBytes('b') == [98];
    assert strings[..|strings| - 1] == ["\\n"] && strings[..1][..0] == [];
    assert MeaningBlob([]) == Some([]) && MeaningBlob(["\\n"]) == Join(Some([]), EntryMeaning("\\n"));
    assert MeaningBlob(strings) == Join(MeaningBlob(["\\n"]), EntryMeaning("b"));
    assert [10] + [0] == [10, 0] && [98] + [0] == [98, 0] && [] + [10, 0] == [10, 0] && [10, 0] + [98, 0] == [10, 0, 98, 0];
  }

  lemma ShortBytes()
    ensures |Blob(["\\n"])| == 3 && Blob([]) == [] && Utf8Of("b") == [98]
  {
    var s := "\\n";
    var one: seq<string> := [s];
    assert s[1..] == "n" && "n"[1..] == "" && "b"[1..] == "" && one[..0] == [];
    assert CharBytes('\\') == [92] && CharBytes('n') == [110] && Utf8Of("") == [] && Utf8Of("n") == [110];
    assert Utf8Of(s) == [92, 110] && Entry(s) == [92, 110, 0] && Blob([s]) == [] + Entry(s);
    assert CharBytes('b') == [98];
  }

  lemma ShortStrings()
    ensures Unbroken(["\\n", "b"])
  {
    hide Breaks;
    var s := "\\n";
    assert s[1..] == "n" && s[2..] == "" && "n"[1..] == "" && "b"[1..] == "";
    assert Newlines("") == "" && Newlines("n") == "n" && Newlines(s) == s && Newlines("b") == "b";
    assert s[..2] == s && ["b"[0]] == "b" && s + "" == s && "b" + "" == "b";
    assert Escaped("") == [""] && Escaped(s) == Prepend(s, [""]) && Escaped("b") == Prepend("b", [""]);
    assert Escaped(s) == [s] && Escaped("b") == ["b"];
    assert s + "\\0" == "\\n\\0" && "b" + "\\0" == "b\\0" && [s][..0] == [] && ["b"][..0] == [];
    assert EntrySegments(s) == ["\\n\\0"] && EntrySegments("b") == ["b\\0"];
    forall k | 0 <= k < 2 ensures NoBreaks(EntrySegments(["\\n", "b"][k])) {
      ShortNeverBreaks("\\n\\0");
      ShortNeverBreaks("b\\0");
    }
  }

  lemma ShortNeverBreaks(t: string)
    requires |t| <= MAX_CONTENT_LEN
    ensures !Breaks(t)
  {
  }
}
