// The string-table compiler (scripts/gen_i18n.py) and the lookup in its tables (lib/I18n/I18n.cpp):
// one blob of NUL-terminated strings per language, and 16-bit offsets of which bit 15 means "the
// English blob".
module StringTable {
  import opened Wrappers
  import opened Utf8

  const MAX_BLOB := 0x7FFF
  const ENGLISH_FLAG := 0x8000

  // The generated arrays of one language, before they are printed.
  datatype Table = Table(strings: seq<string>, offsets: seq<nat>)

  // ----- blobs -----

  function Entry(s: string): (r: seq<byte>)
    ensures |r| > 0
  {
    Utf8Of(s) + [0]
  }

  function Blob(strings: seq<string>): seq<byte> {
    if strings == [] then [] else Blob(strings[..|strings| - 1]) + Entry(strings[|strings| - 1])
  }

  // The emitted data: an empty blob still holds one empty string.
  function Data(t: Table): seq<byte> {
    if t.strings == [] then Entry("") else Blob(t.strings)
  }

  // The strings of the first n keys that differ from English.
  function Own(lang: seq<string>, en: seq<string>, n: nat): (r: seq<string>)
    requires n <= |lang| == |en|
    ensures |r| <= n
  {
    if n == 0 then [] else Own(lang, en, n - 1) + if lang[n - 1] == en[n - 1] then [] else [lang[n - 1]]
  }

  // ----- the compiler -----

  // The table of English: every string, at the offset where the ones before it end.
  method CompileEnglish(strings: seq<string>) returns (r: Option<Table>)
    ensures r.Some? <==> |Blob(strings)| <= MAX_BLOB
    ensures r.Some? ==> IsEnglish(strings, r.value)
  {
    var offsets: seq<nat>, currentOffset := [], 0;
    for i := 0 to |strings|
      invariant |offsets| == i && currentOffset == |Blob(strings[..i])|
      invariant forall k :: 0 <= k < i ==> offsets[k] == |Blob(strings[..k])|
    {
      BlobGrows(strings, i);
      offsets := offsets + [currentOffset];
      currentOffset := currentOffset + |Utf8Of(strings[i])| + 1;
    }
    assert strings[..|strings|] == strings;
    if currentOffset > MAX_BLOB { return None; }
    return Some(Table(strings, offsets));
  }

  ghost predicate IsEnglish(strings: seq<string>, t: Table) {
    && t.strings == strings && |t.offsets| == |strings|
    && (forall k :: 0 <= k < |strings| ==> t.offsets[k] == |Blob(strings[..k])|)
  }

  // The table of another language: strings equal to English are found in the English blob.
  method CompileOther(lang: seq<string>, en: seq<string>, enOffsets: seq<nat>) returns (r: Option<Table>)
    requires |lang| == |en| == |enOffsets| && forall k :: 0 <= k < |enOffsets| ==> enOffsets[k] < ENGLISH_FLAG
    ensures r.Some? <==> |Blob(Own(lang, en, |lang|))| <= MAX_BLOB
    ensures r.Some? ==> IsOther(lang, en, enOffsets, r.value)
  {
    var offsets: seq<nat>, currentOffset, blobStrings := [], 0, [];
    for i := 0 to |lang|
      invariant |offsets| == i && blobStrings == Own(lang, en, i) && currentOffset == |Blob(blobStrings)|
      invariant forall k :: 0 <= k < i ==> offsets[k] == OtherOffset(lang, en, enOffsets, k)
    {
      if lang[i] == en[i] {
        offsets := offsets + [enOffsets[i] + ENGLISH_FLAG];
      } else {
        offsets := offsets + [currentOffset];
        currentOffset := currentOffset + |Utf8Of(lang[i])| + 1;
        assert (blobStrings + [lang[i]])[..|blobStrings|] == blobStrings;
        blobStrings := blobStrings + [lang[i]];
      }
    }
    if currentOffset > MAX_BLOB { return None; }
    return Some(Table(blobStrings, offsets));
  }

  function OtherOffset(lang: seq<string>, en: seq<string>, enOffsets: seq<nat>, k: nat): nat
    requires k < |lang| == |en| == |enOffsets|
  {
    if lang[k] == en[k] then enOffsets[k] + ENGLISH_FLAG else |Blob(Own(lang, en, k))|
  }

  ghost predicate IsOther(lang: seq<string>, en: seq<string>, enOffsets: seq<nat>, t: Table)
    requires |lang| == |en| == |enOffsets|
  {
    && t.strings == Own(lang, en, |lang|) && |t.offsets| == |lang|
    && (forall k :: 0 <= k < |lang| ==> t.offsets[k] == OtherOffset(lang, en, enOffsets, k))
  }

  // Every language has a text for every key.
  predicate Rectangular(languages: seq<seq<string>>) {
    forall l :: 0 <= l < |languages| ==> |languages[l]| == |languages[0]|
  }

  lemma RectangularExact(languages: seq<seq<string>>, keys: nat)
    requires languages != []
    ensures Rectangular(languages) && |languages[0]| == keys <==> forall l :: 0 <= l < |languages| ==> |languages[l]| == keys
  {
  }

  // What a language adds to the tables.
  function OwnStrings(languages: seq<seq<string>>, l: nat): seq<string>
    requires Rectangular(languages) && l < |languages|
  {
    if l == 0 then languages[0] else Own(languages[l], languages[0], |languages[0]|)
  }

  ghost predicate Fits(languages: seq<seq<string>>, l: nat)
    requires Rectangular(languages) && l < |languages|
  {
    |Blob(OwnStrings(languages, l))| <= MAX_BLOB
  }

  ghost predicate Compiled(languages: seq<seq<string>>, tables: seq<Table>, l: nat)
    requires Rectangular(languages) && l < |languages| && l < |tables|
  {
    if l == 0 then IsEnglish(languages[0], tables[0])
    else
      && |tables[0].offsets| == |languages[0]|
      && IsOther(languages[l], languages[0], tables[0].offsets, tables[l])
  }

  // All tables, English first; refused if and only if some blob would outgrow 15-bit offsets.
  method CompileTables(languages: seq<seq<string>>) returns (r: Option<seq<Table>>)
    requires |languages| > 0 && Rectangular(languages)
    ensures r.Some? <==> forall l :: 0 <= l < |languages| ==> Fits(languages, l)
    ensures r.Some? ==>
              && |r.value| == |languages|
              && (forall l :: 0 <= l < |languages| ==> |r.value[l].offsets| == |languages[0]|)
              && (forall l :: 0 <= l < |languages| ==> r.value[l].strings == OwnStrings(languages, l))
              && forall l, k :: 0 <= l < |languages| && 0 <= k < |languages[0]| ==>
                   && (Flagged(r.value, l, k) <==> l > 0 && languages[l][k] == languages[0][k])
                   && (Lookup(r.value, l, k) == Utf8Of(languages[l][k]) <==> '\0' !in languages[l][k])
  {
    hide IsEnglish, IsOther, Blob, Flagged, Lookup, Utf8Of, Own;
    var first := CompileEnglish(languages[0]);
    if first.None? {
      assert !Fits(languages, 0);
      return None;
    }
    var tables := [first.value];
    EnglishOffsets(languages[0], first.value);
    assert Fits(languages, 0);
    for l := 1 to |languages|
      invariant |tables| == l && tables[0] == first.value
      invariant forall m :: 0 <= m < l ==> Fits(languages, m) && Compiled(languages, tables, m)
    {
      var t := CompileOther(languages[l], languages[0], tables[0].offsets);
      if t.None? {
        assert !Fits(languages, l);
        return None;
      }
      ghost var before := tables;
      tables := tables + [t.value];
      forall m | 0 <= m < l ensures Compiled(languages, tables, m) { assert Compiled(languages, before, m); }
      assert Compiled(languages, tables, l) && Fits(languages, l);
    }
    r := Some(tables);
    forall l | 0 <= l < |languages|
      ensures |tables[l].offsets| == |languages[0]| && tables[l].strings == OwnStrings(languages, l)
    {
      assert Compiled(languages, tables, l);
      CompiledSize(languages, tables, l);
    }
    forall l, k | 0 <= l < |languages| && 0 <= k < |languages[0]|
      ensures Flagged(tables, l, k) <==> l > 0 && languages[l][k] == languages[0][k]
      ensures Lookup(tables, l, k) == Utf8Of(languages[l][k]) <==> '\0' !in languages[l][k]
    {
      assert Fits(languages, 0) && Compiled(languages, tables, 0) && Fits(languages, l) && Compiled(languages, tables, l);
      LookupFinds(languages, tables, l, k);
    }
  }

  // ----- looking up -----

  // The bytes from an offset up to the NUL, as a C string is read.
  function CString(data: seq<byte>, at: nat): seq<byte>
    decreases |data| - at
  {
    if at >= |data| || data[at] == 0 then [] else [data[at]] + CString(data, at + 1)
  }

  predicate Flagged(tables: seq<Table>, l: nat, k: nat)
    requires l < |tables| && k < |tables[l].offsets|
  {
    tables[l].offsets[k] / ENGLISH_FLAG % 2 == 1
  }

  // I18n::get.
  function Lookup(tables: seq<Table>, l: nat, k: nat): seq<byte>
    requires l < |tables| && k < |tables[l].offsets|
  {
    var off := tables[l].offsets[k];
    if Flagged(tables, l, k) then CString(Data(tables[0]), off % ENGLISH_FLAG) else CString(Data(tables[l]), off)
  }

  // Bit 15 of a 16-bit offset chooses the English blob, the other 15 say where to read.
  lemma FlagIsBit15(tables: seq<Table>, l: nat, k: nat)
    requires l < |tables| && k < |tables[l].offsets| && tables[l].offsets[k] < 0x1_0000
    ensures var off := tables[l].offsets[k];
            && (off < 0x8000 ==> Lookup(tables, l, k) == CString(Data(tables[l]), off))
            && (off >= 0x8000 ==> Lookup(tables, l, k) == CString(Data(tables[0]), off - 0x8000))
  {
    hide CString, Data;
  }

  // ----- why it works -----

  lemma CompiledSize(languages: seq<seq<string>>, tables: seq<Table>, l: nat)
    requires Rectangular(languages) && l < |languages| && l < |tables| && Compiled(languages, tables, l)
    ensures |tables[l].offsets| == |languages[0]| && tables[l].strings == OwnStrings(languages, l)
  {
  }

  lemma BlobGrows(strings: seq<string>, n: nat)
    requires n < |strings|
    ensures Blob(strings[..n + 1]) == Blob(strings[..n]) + Entry(strings[n])
  {
    assert strings[..n + 1][..n] == strings[..n];
  }

  // A blob is what precedes an entry, the entry, and the rest.
  lemma {:induction false} BlobAround(strings: seq<string>, j: nat) returns (rest: seq<byte>)
    requires j < |strings|
    ensures Blob(strings) == Blob(strings[..j]) + Entry(strings[j]) + rest
  {
    var front, last := strings[..|strings| - 1], strings[|strings| - 1];
    if j == |strings| - 1 {
      rest := [];
    } else {
      var r := BlobAround(front, j);
      assert front[..j] == strings[..j];
      rest := r + Entry(last);
      assert Blob(strings) == Blob(strings[..j]) + Entry(strings[j]) + rest;
    }
  }

  lemma {:induction false} CStringReads(before: seq<byte>, s: seq<byte>, rest: seq<byte>)
    ensures CString(before + (s + [0]) + rest, |before|) == s <==> 0 !in s
    ensures 0 !in s ==> CString(before + (s + [0]) + rest, |before|) == s
    decreases |s|
  {
    var data := before + (s + [0]) + rest;
    assert data[|before|] == (s + [0])[0];
    if s != [] && s[0] != 0 {
      assert data == (before + [s[0]]) + (s[1..] + [0]) + rest;
      CStringReads(before + [s[0]], s[1..], rest);
      assert s == [s[0]] + s[1..];
      assert 0 in s <==> 0 in s[1..];
    }
  }

  // Reading at the start of an entry yields the entry's text, unless it contains a NUL itself.
  lemma EntryReads(strings: seq<string>, j: nat)
    requires j < |strings|
    ensures |Blob(strings[..j])| < |Blob(strings)|
    ensures CString(Blob(strings), |Blob(strings[..j])|) == Utf8Of(strings[j]) <==> '\0' !in strings[j]
  {
    hide Blob;
    var rest := BlobAround(strings, j);
    CStringReads(Blob(strings[..j]), Utf8Of(strings[j]), rest);
    ZeroBytes(strings[j]);
  }

  // The own strings before a key are a prefix of all of them, and its own string comes next.
  lemma {:induction false} OwnPrefix(lang: seq<string>, en: seq<string>, k: nat, n: nat)
    requires k < n <= |lang| == |en| && lang[k] != en[k]
    ensures var own, j := Own(lang, en, n), |Own(lang, en, k)|;
            j < |own| && own[..j] == Own(lang, en, k) && own[j] == lang[k]
  {
    if k < n - 1 { OwnPrefix(lang, en, k, n - 1); }
  }

  // A language stores exactly the texts that differ from English.
  lemma {:induction false} OwnMembers(lang: seq<string>, en: seq<string>, n: nat, s: string)
    requires n <= |lang| == |en|
    ensures s in Own(lang, en, n) <==> exists k :: 0 <= k < n && lang[k] == s && lang[k] != en[k]
  {
    if n > 0 { OwnMembers(lang, en, n - 1, s); }
  }

  lemma EnglishOffsets(strings: seq<string>, t: Table)
    requires IsEnglish(strings, t) && |Blob(strings)| <= MAX_BLOB
    ensures |t.offsets| == |strings| && forall k :: 0 <= k < |strings| ==> t.offsets[k] < 0x7FFF
  {
    hide Blob;
    forall k | 0 <= k < |strings| ensures t.offsets[k] < 0x7FFF {
      EntryReads(strings, k);
    }
  }

  lemma LookupFinds(languages: seq<seq<string>>, tables: seq<Table>, l: nat, k: nat)
    requires Rectangular(languages) && l < |languages| && l < |tables| && k < |languages[0]|
    requires Fits(languages, 0) && Compiled(languages, tables, 0) && Fits(languages, l) && Compiled(languages, tables, l)
    ensures k < |tables[l].offsets|
    ensures Flagged(tables, l, k) <==> l > 0 && languages[l][k] == languages[0][k]
    ensures Lookup(tables, l, k) == Utf8Of(languages[l][k]) <==> '\0' !in languages[l][k]
  {
    hide Blob, CString, Utf8Of, Own;
    var en, lang := languages[0], languages[l];
    EnglishOffsets(en, tables[0]);
    EntryReads(en, k);
    if l > 0 && lang[k] != en[k] {
      OwnPrefix(lang, en, k, |lang|);
      EntryReads(Own(lang, en, |lang|), |Own(lang, en, k)|);
    }
  }
}
