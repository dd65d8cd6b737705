// What a prewarm collects (FontDecompressor::prewarmCache, steps 1 and 2): the glyphs a page
// needs, the groups that hold them, and the order of the lookup table.
module PagePlan {
  import opened Wrappers
  import opened FontData

  const MAX_PAGE_GLYPHS := 512
  const MAX_NEEDED_GROUPS := 128
  const UINT32_MAX := 0xFFFF_FFFF

  // ----- needed glyphs -----

  // Appends v unless it is present already or the list is full.
  function AddCapped(acc: seq<nat>, v: nat, cap: nat): seq<nat> {
    if v in acc || |acc| >= cap then acc else acc + [v]
  }

  // The distinct glyphs of a text in order of first appearance, at most 512 of them.
  // Codepoint 0 ends the text, and codepoints outside the font are skipped.
  function TextGlyphs(font: EpdFontData, text: seq<nat>, acc: seq<nat>): seq<nat>
    decreases |text|
  {
    if text == [] || text[0] == 0 then acc
    else
      var i := GlyphIndexOf(font.intervals, text[0]);
      TextGlyphs(font, text[1..], if i < 0 then acc else AddCapped(acc, i, MAX_PAGE_GLYPHS))
  }

  // The list with the output of one ligature added when both of its inputs are listed.
  function WithLigature(font: EpdFontData, pair: LigaturePair, acc: seq<nat>): seq<nat> {
    var left := GlyphIndexOf(font.intervals, pair.pair / 0x1_0000);
    var right := GlyphIndexOf(font.intervals, pair.pair % 0x1_0000);
    if left < 0 || right < 0 then acc
    else if left !in acc || right !in acc then acc
    else
      var output := GlyphIndexOf(font.intervals, pair.ligatureCp);
      if output < 0 || output in acc then acc else acc + [output]
  }

  function WithLigatures(font: EpdFontData, pairs: seq<LigaturePair>, acc: seq<nat>): seq<nat> {
    if pairs == [] || |acc| >= MAX_PAGE_GLYPHS then acc
    else WithLigatures(font, pairs[1..], WithLigature(font, pairs[0], acc))
  }

  function NeededGlyphs(font: EpdFontData, text: seq<nat>): seq<nat> {
    WithLigatures(font, font.ligaturePairs, TextGlyphs(font, text, []))
  }

  // Distinct glyphs of the font, within the cap.
  ghost predicate GlyphList(font: EpdFontData, glyphs: seq<nat>) {
    && |glyphs| <= 512
    && (forall j, k :: 0 <= j < k < |glyphs| ==> glyphs[j] != glyphs[k])
    && (forall k :: 0 <= k < |glyphs| ==> glyphs[k] < |font.glyph|)
  }

  lemma {:induction false} TextGlyphsListed(font: EpdFontData, text: seq<nat>, acc: seq<nat>)
    requires Enumerates(font.intervals, |font.glyph|) && GlyphList(font, acc)
    ensures GlyphList(font, TextGlyphs(font, text, acc))
    decreases |text|
  {
    if text != [] && text[0] != 0 {
      var i := GlyphIndexOf(font.intervals, text[0]);
      GlyphIndexValid(font.intervals, |font.glyph|, text[0]);
      TextGlyphsListed(font, text[1..], if i < 0 then acc else AddCapped(acc, i, MAX_PAGE_GLYPHS));
    }
  }

  lemma {:induction false} WithLigaturesListed(font: EpdFontData, pairs: seq<LigaturePair>, acc: seq<nat>)
    requires Enumerates(font.intervals, |font.glyph|) && GlyphList(font, acc)
    ensures GlyphList(font, WithLigatures(font, pairs, acc))
  {
    if pairs != [] && |acc| < MAX_PAGE_GLYPHS {
      GlyphIndexValid(font.intervals, |font.glyph|, pairs[0].ligatureCp);
      WithLigaturesListed(font, pairs[1..], WithLigature(font, pairs[0], acc));
    }
  }

  lemma NeededGlyphsListed(font: EpdFontData, text: seq<nat>)
    requires Enumerates(font.intervals, |font.glyph|)
    ensures GlyphList(font, NeededGlyphs(font, text))
  {
    TextGlyphsListed(font, text, []);
    WithLigaturesListed(font, font.ligaturePairs, TextGlyphs(font, text, []));
  }

  lemma {:induction false} TextGlyphsKeep(font: EpdFontData, text: seq<nat>, acc: seq<nat>)
    ensures acc <= TextGlyphs(font, text, acc)
    decreases |text|
  {
    if text != [] && text[0] != 0 {
      var i := GlyphIndexOf(font.intervals, text[0]);
      TextGlyphsKeep(font, text[1..], if i < 0 then acc else AddCapped(acc, i, MAX_PAGE_GLYPHS));
    }
  }

  lemma {:induction false} WithLigaturesKeep(font: EpdFontData, pairs: seq<LigaturePair>, acc: seq<nat>)
    ensures acc <= WithLigatures(font, pairs, acc)
  {
    if pairs != [] && |acc| < MAX_PAGE_GLYPHS {
      WithLigaturesKeep(font, pairs[1..], WithLigature(font, pairs[0], acc));
    }
  }

  lemma {:induction false} TextGlyphsComplete(font: EpdFontData, text: seq<nat>, acc: seq<nat>, k: nat)
    requires k < |text| && (forall j :: 0 <= j <= k ==> text[j] != 0)
    requires GlyphIndexOf(font.intervals, text[k]) >= 0
    requires |TextGlyphs(font, text, acc)| < MAX_PAGE_GLYPHS
    ensures GlyphIndexOf(font.intervals, text[k]) in TextGlyphs(font, text, acc)
    decreases |text|
  {
    var i := GlyphIndexOf(font.intervals, text[0]);
    var next := if i < 0 then acc else AddCapped(acc, i, MAX_PAGE_GLYPHS);
    var result := TextGlyphs(font, text[1..], next);
    TextGlyphsKeep(font, text[1..], next);
    if k == 0 {
      var m :| 0 <= m < |next| && next[m] == i;
      assert result[m] == i;
    } else {
      assert forall j :: 0 <= j <= k - 1 ==> text[1..][j] == text[j + 1];
      TextGlyphsComplete(font, text[1..], next, k - 1);
    }
  }

  // Below the cap no glyph of the text is left out.
  lemma NeededGlyphsComplete(font: EpdFontData, text: seq<nat>, k: nat)
    requires k < |text| && (forall j :: 0 <= j <= k ==> text[j] != 0)
    requires GlyphIndexOf(font.intervals, text[k]) >= 0
    requires |NeededGlyphs(font, text)| < 512
    ensures GlyphIndexOf(font.intervals, text[k]) in NeededGlyphs(font, text)
  {
    WithLigaturesKeep(font, font.ligaturePairs, TextGlyphs(font, text, []));
    TextGlyphsComplete(font, text, [], k);
  }

  // Position k belongs to the text and shows a glyph of the font.
  predicate Shows(font: EpdFontData, text: seq<nat>, k: nat) {
    k < |text| && (forall j :: 0 <= j <= k ==> text[j] != 0) && GlyphIndexOf(font.intervals, text[k]) >= 0
  }

  // The text shows the glyph.
  ghost predicate InText(font: EpdFontData, text: seq<nat>, i: int) {
    exists k: nat :: Shows(font, text, k) && GlyphIndexOf(font.intervals, text[k]) == i
  }

  lemma ShowsLater(font: EpdFontData, text: seq<nat>, i: int)
    requires text != [] && text[0] != 0 && InText(font, text[1..], i)
    ensures InText(font, text, i)
  {
    var k: nat :| Shows(font, text[1..], k) && GlyphIndexOf(font.intervals, text[1..][k]) == i;
    assert forall j :: 1 <= j <= k + 1 ==> text[j] == text[1..][j - 1];
    assert Shows(font, text, k + 1);
  }

  // Only glyphs of the text are listed, each text listing what its beginnings list, in that order.
  lemma {:induction false} TextGlyphsOnly(font: EpdFontData, text: seq<nat>, acc: seq<nat>, i: nat)
    requires i in TextGlyphs(font, text, acc)
    ensures i in acc || InText(font, text, i)
    decreases |text|
  {
    hide GlyphIndexOf;
    if text != [] && text[0] != 0 {
      var g := GlyphIndexOf(font.intervals, text[0]);
      TextGlyphsOnly(font, text[1..], if g < 0 then acc else AddCapped(acc, g, MAX_PAGE_GLYPHS), i);
      if InText(font, text[1..], i) { ShowsLater(font, text, i); }
      if g == i { assert Shows(font, text, 0); }
    }
  }

  lemma {:induction false} TextGlyphsGrow(font: EpdFontData, text: seq<nat>, acc: seq<nat>, n: nat)
    requires n <= |text|
    ensures TextGlyphs(font, text[..n], acc) <= TextGlyphs(font, text, acc)
    decreases |text|
  {
    hide GlyphIndexOf;
    if n == 0 || text[0] == 0 {
      TextGlyphsKeep(font, text, acc);
    } else {
      assert text[..n][1..] == text[1..][..n - 1] && text[..n][0] == text[0];
      var i := GlyphIndexOf(font.intervals, text[0]);
      TextGlyphsGrow(font, text[1..], if i < 0 then acc else AddCapped(acc, i, MAX_PAGE_GLYPHS), n - 1);
    }
  }

  // ----- which ligatures are listed -----

  function LeftInput(font: EpdFontData, pair: LigaturePair): int {
    GlyphIndexOf(font.intervals, pair.pair / 0x1_0000)
  }

  function RightInput(font: EpdFontData, pair: LigaturePair): int {
    GlyphIndexOf(font.intervals, pair.pair % 0x1_0000)
  }

  // Pair k joins two glyphs listed when it is looked at, and its ligature is glyph i.
  predicate Joins(font: EpdFontData, pairs: seq<LigaturePair>, acc: seq<nat>, k: nat, i: nat)
    requires k < |pairs|
  {
    var listed := WithLigatures(font, pairs[..k], acc);
    && LeftInput(font, pairs[k]) >= 0 && LeftInput(font, pairs[k]) in listed
    && RightInput(font, pairs[k]) >= 0 && RightInput(font, pairs[k]) in listed
    && GlyphIndexOf(font.intervals, pairs[k].ligatureCp) == i
  }

  lemma {:induction false} LigaturesAppend(font: EpdFontData, pairs: seq<LigaturePair>, acc: seq<nat>)
    requires pairs != []
    ensures var front, last := WithLigatures(font, pairs[..|pairs| - 1], acc), pairs[|pairs| - 1];
            WithLigatures(font, pairs, acc) == if |front| >= MAX_PAGE_GLYPHS then front else WithLigature(font, last, front)
  {
    hide WithLigature;
    if |pairs| == 1 {
      assert pairs[..0] == [] && pairs[1..] == [];
    } else if |acc| < MAX_PAGE_GLYPHS {
      assert pairs[1..][..|pairs| - 2] == pairs[..|pairs| - 1][1..];
      LigaturesAppend(font, pairs[1..], WithLigature(font, pairs[0], acc));
    }
  }

  // Below the cap exactly the ligatures of listed glyphs are added.
  lemma {:induction false} LigaturesExact(font: EpdFontData, pairs: seq<LigaturePair>, acc: seq<nat>, i: nat)
    requires |WithLigatures(font, pairs, acc)| < MAX_PAGE_GLYPHS
    ensures i in WithLigatures(font, pairs, acc) <==> i in acc || exists k :: 0 <= k < |pairs| && Joins(font, pairs, acc, k, i)
  {
    if pairs != [] {
      hide GlyphIndexOf, WithLigatures, Joins;
      var front := pairs[..|pairs| - 1];
      LigaturesAppend(font, pairs, acc);
      ListGrows(font, pairs[|pairs| - 1], WithLigatures(font, front, acc));
      LigaturesExact(font, front, acc, i);
      forall k | 0 <= k < |front| ensures Joins(font, pairs, acc, k, i) <==> Joins(font, front, acc, k, i) {
        SameJoin(font, pairs, acc, k, i);
      }
      LastJoin(font, pairs, acc, i);
    } else {
      NoLigatures(font, acc);
    }
  }

  lemma NoLigatures(font: EpdFontData, acc: seq<nat>)
    ensures WithLigatures(font, [], acc) == acc
  {
  }

  lemma ListGrows(font: EpdFontData, pair: LigaturePair, acc: seq<nat>)
    ensures acc <= WithLigature(font, pair, acc)
  {
  }

  lemma SameJoin(font: EpdFontData, pairs: seq<LigaturePair>, acc: seq<nat>, k: nat, i: nat)
    requires k < |pairs| - 1
    ensures Joins(font, pairs, acc, k, i) <==> Joins(font, pairs[..|pairs| - 1], acc, k, i)
  {
    hide GlyphIndexOf, WithLigatures;
    assert pairs[..|pairs| - 1][..k] == pairs[..k];
  }

  lemma LastJoin(font: EpdFontData, pairs: seq<LigaturePair>, acc: seq<nat>, i: nat)
    requires pairs != []
    ensures var listed := WithLigatures(font, pairs[..|pairs| - 1], acc);
            i in WithLigature(font, pairs[|pairs| - 1], listed) <==> i in listed || Joins(font, pairs, acc, |pairs| - 1, i)
  {
    hide GlyphIndexOf, WithLigatures;
  }

  // Below the cap the ligature of any two glyphs of the text is listed, if the font has it.
  lemma LigaturesListed(font: EpdFontData, text: seq<nat>, k: nat)
    requires |NeededGlyphs(font, text)| < MAX_PAGE_GLYPHS && k < |font.ligaturePairs|
    requires InText(font, text, LeftInput(font, font.ligaturePairs[k])) && InText(font, text, RightInput(font, font.ligaturePairs[k]))
    ensures var output := GlyphIndexOf(font.intervals, font.ligaturePairs[k].ligatureCp);
            output >= 0 ==> output in NeededGlyphs(font, text)
  {
    hide GlyphIndexOf, WithLigatures, TextGlyphs;
    var acc, output := TextGlyphs(font, text, []), GlyphIndexOf(font.intervals, font.ligaturePairs[k].ligatureCp);
    WithLigaturesKeep(font, font.ligaturePairs, acc);
    TextIsListed(font, text, LeftInput(font, font.ligaturePairs[k]));
    TextIsListed(font, text, RightInput(font, font.ligaturePairs[k]));
    WithLigaturesKeep(font, font.ligaturePairs[..k], acc);
    if output >= 0 {
      assert Joins(font, font.ligaturePairs, acc, k, output);
      LigaturesExact(font, font.ligaturePairs, acc, output);
    }
  }

  lemma TextIsListed(font: EpdFontData, text: seq<nat>, i: int)
    requires InText(font, text, i) && |TextGlyphs(font, text, [])| < MAX_PAGE_GLYPHS
    ensures i in TextGlyphs(font, text, [])
  {
    hide GlyphIndexOf, TextGlyphs;
    var k: nat :| Shows(font, text, k) && GlyphIndexOf(font.intervals, text[k]) == i;
    TextGlyphsComplete(font, text, [], k);
  }

  // And nothing else: a glyph listed is one of the text or the ligature of two glyphs listed.
  lemma OnlyNeeded(font: EpdFontData, text: seq<nat>, i: nat)
    requires |NeededGlyphs(font, text)| < MAX_PAGE_GLYPHS && i in NeededGlyphs(font, text)
    ensures || InText(font, text, i)
            || exists k :: 0 <= k < |font.ligaturePairs| && LigatureOf(font, NeededGlyphs(font, text), k, i)
  {
    hide GlyphIndexOf, WithLigatures, TextGlyphs, InText;
    var acc := TextGlyphs(font, text, []);
    LigaturesExact(font, font.ligaturePairs, acc, i);
    if i in acc {
      TextGlyphsOnly(font, text, [], i);
    } else {
      var k :| 0 <= k < |font.ligaturePairs| && Joins(font, font.ligaturePairs, acc, k, i);
      PrefixListed(font, font.ligaturePairs, acc, k);
      assert LigatureOf(font, NeededGlyphs(font, text), k, i);
    }
  }

  predicate LigatureOf(font: EpdFontData, glyphs: seq<nat>, k: nat, i: nat)
    requires k < |font.ligaturePairs|
  {
    && LeftInput(font, font.ligaturePairs[k]) in glyphs && RightInput(font, font.ligaturePairs[k]) in glyphs
    && GlyphIndexOf(font.intervals, font.ligaturePairs[k].ligatureCp) == i
  }

  lemma {:induction false} PrefixListed(font: EpdFontData, pairs: seq<LigaturePair>, acc: seq<nat>, k: nat)
    requires k <= |pairs|
    ensures WithLigatures(font, pairs[..k], acc) <= WithLigatures(font, pairs, acc)
  {
    hide WithLigature;
    if k == |pairs| {
      assert pairs[..k] == pairs;
    } else {
      var front := pairs[..|pairs| - 1];
      assert front[..k] == pairs[..k];
      PrefixListed(font, front, acc, k);
      LigaturesAppend(font, pairs, acc);
      ListGrows(font, pairs[|pairs| - 1], WithLigatures(font, front, acc));
    }
  }

  // Whether v is among the first n elements.
  method Contains(a: array<nat>, n: nat, v: nat) returns (found: bool)
    requires n <= a.Length
    ensures found <==> v in a[..n]
  {
    found := false;
    var i := 0;
    while i < n
      invariant 0 <= i <= n
      invariant v !in a[..i]
    {
      if a[i] == v {
        return true;
      }
      i := i + 1;
    }
  }

  method CollectTextGlyphs(font: EpdFontData, text: seq<nat>, needed: array<nat>) returns (count: nat)
    requires SortedIntervals(font.intervals) && needed.Length == MAX_PAGE_GLYPHS
    modifies needed
    ensures count <= needed.Length && needed[..count] == TextGlyphs(font, text, [])
  {
    hide SortedIntervals, GlyphIndexOf;
    count := 0;
    var p := 0;
    while p < |text|
      invariant 0 <= p <= |text| && 0 <= count <= needed.Length
      invariant TextGlyphs(font, text, []) == TextGlyphs(font, text[p..], needed[..count])
    {
      var cp := text[p];
      if cp == 0 { break; }
      assert text[p..][0] == cp && text[p..][1..] == text[p + 1..];
      var i := FindGlyphIndex(font, cp);
      p := p + 1;
      if i < 0 { continue; }
      var found := Contains(needed, count, i);
      if !found && count < MAX_PAGE_GLYPHS {
        ghost var before := needed[..count];
        needed[count] := i;
        count := count + 1;
        assert needed[..count] == before + [i];
      }
    }
  }

  method AddLigatureGlyphs(font: EpdFontData, needed: array<nat>, count0: nat) returns (count: nat)
    requires SortedIntervals(font.intervals) && needed.Length == MAX_PAGE_GLYPHS && count0 <= needed.Length
    modifies needed
    ensures count <= needed.Length
    ensures needed[..count] == WithLigatures(font, font.ligaturePairs, old(needed[..count0]))
  {
    hide SortedIntervals, GlyphIndexOf;
    count := count0;
    var li := 0;
    while li < |font.ligaturePairs| && count < MAX_PAGE_GLYPHS
      invariant 0 <= li <= |font.ligaturePairs| && 0 <= count <= needed.Length
      invariant WithLigatures(font, font.ligaturePairs, old(needed[..count0]))
             == WithLigatures(font, font.ligaturePairs[li..], needed[..count])
    {
      var pair := font.ligaturePairs[li];
      assert font.ligaturePairs[li..][0] == pair && font.ligaturePairs[li..][1..] == font.ligaturePairs[li + 1..];
      li := li + 1;
      var leftIdx := FindGlyphIndex(font, pair.pair / 0x1_0000);
      var rightIdx := FindGlyphIndex(font, pair.pair % 0x1_0000);
      if leftIdx < 0 || rightIdx < 0 { continue; }
      var hasLeft := Contains(needed, count, leftIdx);
      var hasRight := Contains(needed, count, rightIdx);
      if !hasLeft || !hasRight { continue; }
      var outIdx := FindGlyphIndex(font, pair.ligatureCp);
      if outIdx < 0 { continue; }
      var found := Contains(needed, count, outIdx);
      if !found {
        ghost var before := needed[..count];
        needed[count] := outIdx;
        count := count + 1;
        assert needed[..count] == before + [outIdx];
      }
    }
  }

  // ----- needed groups -----

  function TotalLength(font: EpdFontData, glyphs: seq<nat>): nat
    requires forall k :: 0 <= k < |glyphs| ==> glyphs[k] < |font.glyph|
  {
    if glyphs == [] then 0
    else TotalLength(font, glyphs[..|glyphs| - 1]) + font.glyph[glyphs[|glyphs| - 1]].dataLength
  }

  // The distinct groups of a glyph list in order of first appearance, at most 128.
  function NeededGroups(font: EpdFontData, glyphs: seq<nat>): (r: seq<nat>)
    requires WellFormed(font) && forall k :: 0 <= k < |glyphs| ==> glyphs[k] < |font.glyph|
    ensures |r| <= 128
    ensures forall j, k :: 0 <= j < k < |r| ==> r[j] != r[k]
    ensures forall k :: 0 <= k < |r| ==> r[k] < |font.groups|
    ensures |r| < 128 ==> forall k :: 0 <= k < |glyphs| ==> GroupIndex(font, glyphs[k]) in r
  {
    if glyphs == [] then []
    else AddCapped(NeededGroups(font, glyphs[..|glyphs| - 1]), GroupIndex(font, glyphs[|glyphs| - 1]), MAX_NEEDED_GROUPS)
  }

  lemma OneMoreGlyph(font: EpdFontData, glyphs: seq<nat>, i: nat)
    requires WellFormed(font) && i < |glyphs| && forall k :: 0 <= k < |glyphs| ==> glyphs[k] < |font.glyph|
    ensures TotalLength(font, glyphs[..i + 1]) == TotalLength(font, glyphs[..i]) + font.glyph[glyphs[i]].dataLength
    ensures NeededGroups(font, glyphs[..i + 1])
         == AddCapped(NeededGroups(font, glyphs[..i]), GroupIndex(font, glyphs[i]), MAX_NEEDED_GROUPS)
  {
    hide GroupIndex, WellFormed, AddCapped;
    assert glyphs[..i + 1][..i] == glyphs[..i];
  }

  method CollectGroups(font: EpdFontData, glyphs: array<nat>, count: nat, groups: array<nat>)
    returns (totalBytes: nat, groupCount: nat)
    requires WellFormed(font) && count <= glyphs.Length && GlyphList(font, glyphs[..count])
    requires groups.Length == MAX_NEEDED_GROUPS && groups != glyphs
    modifies groups
    ensures totalBytes == TotalLength(font, glyphs[..count])
    ensures groupCount <= groups.Length && groups[..groupCount] == NeededGroups(font, glyphs[..count])
  {
    hide GroupIndex, Enumerates, GroupFits, NeededGroups, TotalLength;
    ghost var all := glyphs[..count];
    totalBytes, groupCount := 0, 0;
    NoGlyphs(font);
    for i := 0 to count
      invariant glyphs[..count] == all
      invariant totalBytes == TotalLength(font, all[..i])
      invariant 0 <= groupCount <= groups.Length && groups[..groupCount] == NeededGroups(font, all[..i])
    {
      OneMoreGlyph(font, all, i);
      assert all[i] == glyphs[i];
      totalBytes := totalBytes + font.glyph[glyphs[i]].dataLength;
      var gi := GetGroupIndex(font, glyphs[i]);
      var found := Contains(groups, groupCount, gi);
      if !found && groupCount < MAX_NEEDED_GROUPS {
        ghost var before := groups[..groupCount];
        groups[groupCount] := gi;
        groupCount := groupCount + 1;
        assert groups[..groupCount] == before + [gi];
      }
    }
    assert all[..count] == all;
  }

  lemma NoGlyphs(font: EpdFontData)
    requires WellFormed(font)
    ensures TotalLength(font, []) == 0 && NeededGroups(font, []) == []
  {
  }

  lemma {:induction false} TotalLengthBound(font: EpdFontData, glyphs: seq<nat>)
    requires WellFormed(font) && forall k :: 0 <= k < |glyphs| ==> glyphs[k] < |font.glyph|
    ensures TotalLength(font, glyphs) <= |glyphs| * 0xFFFF
  {
    if glyphs != [] {
      TotalLengthBound(font, glyphs[..|glyphs| - 1]);
    }
  }

  // ----- the lookup table -----

  // bufferOffset is UINT32_MAX until the glyph has been extracted.
  datatype PageGlyphEntry = PageGlyphEntry(glyphIndex: nat, bufferOffset: nat, alignedOffset: nat)

  ghost predicate SortedEntries(s: seq<PageGlyphEntry>) {
    forall j, k :: 0 <= j < k < |s| ==> s[j].glyphIndex < s[k].glyphIndex
  }

  function FreshEntries(glyphs: seq<nat>): (r: seq<PageGlyphEntry>)
    ensures |r| == |glyphs|
  {
    seq(|glyphs|, k requires 0 <= k < |glyphs| => PageGlyphEntry(glyphs[k], UINT32_MAX, 0))
  }

  // Insertion from the right end, as the sort does it.
  function InsertEntry(s: seq<PageGlyphEntry>, key: PageGlyphEntry): (r: seq<PageGlyphEntry>)
    ensures |r| == |s| + 1
  {
    if s == [] || s[|s| - 1].glyphIndex <= key.glyphIndex then s + [key]
    else InsertEntry(s[..|s| - 1], key) + [s[|s| - 1]]
  }

  function SortEntries(s: seq<PageGlyphEntry>): (r: seq<PageGlyphEntry>)
    ensures |r| == |s|
  {
    if s == [] then [] else InsertEntry(SortEntries(s[..|s| - 1]), s[|s| - 1])
  }

  // The bytes that the entries not yet extracted will take.
  function Pending(font: EpdFontData, s: seq<PageGlyphEntry>): nat
    requires forall k :: 0 <= k < |s| ==> s[k].glyphIndex < |font.glyph|
  {
    if s == [] then 0
    else Pending(font, s[..|s| - 1]) + PendingEntry(font, s[|s| - 1])
  }

  function PendingEntry(font: EpdFontData, e: PageGlyphEntry): nat
    requires e.glyphIndex < |font.glyph|
  {
    if e.bufferOffset == UINT32_MAX then font.glyph[e.glyphIndex].dataLength else 0
  }

  lemma {:induction false} InsertEntryAt(s: seq<PageGlyphEntry>, key: PageGlyphEntry, j: nat)
    requires j <= |s|
    requires forall k :: j <= k < |s| ==> s[k].glyphIndex > key.glyphIndex
    requires j > 0 ==> s[j - 1].glyphIndex <= key.glyphIndex
    ensures InsertEntry(s, key) == s[..j] + [key] + s[j..]
  {
    if j < |s| {
      InsertEntryAt(s[..|s| - 1], key, j);
    }
  }

  lemma {:induction false} InsertEntryMembers(s: seq<PageGlyphEntry>, key: PageGlyphEntry)
    ensures forall e :: e in InsertEntry(s, key) <==> e in s || e == key
  {
    if s != [] && s[|s| - 1].glyphIndex > key.glyphIndex {
      InsertEntryMembers(s[..|s| - 1], key);
      assert s == s[..|s| - 1] + [s[|s| - 1]];
    }
  }

  lemma {:induction false} InsertEntryPending(font: EpdFontData, s: seq<PageGlyphEntry>, key: PageGlyphEntry)
    requires key.glyphIndex < |font.glyph| && forall k :: 0 <= k < |s| ==> s[k].glyphIndex < |font.glyph|
    ensures forall k :: 0 <= k < |s| + 1 ==> InsertEntry(s, key)[k].glyphIndex < |font.glyph|
    ensures Pending(font, InsertEntry(s, key)) == Pending(font, s) + PendingEntry(font, key)
  {
    hide PendingEntry;
    var r := InsertEntry(s, key);
    if s == [] || s[|s| - 1].glyphIndex <= key.glyphIndex {
      assert r[..|r| - 1] == s;
    } else {
      InsertEntryPending(font, s[..|s| - 1], key);
      assert r[..|r| - 1] == InsertEntry(s[..|s| - 1], key);
    }
  }

  lemma {:induction false} InsertEntrySorts(s: seq<PageGlyphEntry>, key: PageGlyphEntry)
    requires SortedEntries(s) && forall k :: 0 <= k < |s| ==> s[k].glyphIndex != key.glyphIndex
    ensures SortedEntries(InsertEntry(s, key))
  {
    if s != [] && s[|s| - 1].glyphIndex > key.glyphIndex {
      var front := s[..|s| - 1];
      InsertEntrySorts(front, key);
      InsertEntryMembers(front, key);
      var r := InsertEntry(front, key);
      forall k | 0 <= k < |r| ensures r[k].glyphIndex < s[|s| - 1].glyphIndex {
        assert r[k] in front || r[k] == key;
      }
    }
  }

  lemma FreshFront(glyphs: seq<nat>)
    requires glyphs != []
    ensures FreshEntries(glyphs)[..|glyphs| - 1] == FreshEntries(glyphs[..|glyphs| - 1])
    ensures FreshEntries(glyphs)[|glyphs| - 1] == PageGlyphEntry(glyphs[|glyphs| - 1], UINT32_MAX, 0)
  {
  }

  // Sorting a fresh table keeps its entries and its pending bytes, and orders it strictly.
  lemma {:induction false} SortFresh(font: EpdFontData, glyphs: seq<nat>)
    requires GlyphList(font, glyphs)
    ensures var r := SortEntries(FreshEntries(glyphs));
            && (forall e :: e in r <==> e in FreshEntries(glyphs))
            && SortedEntries(r)
            && (forall k :: 0 <= k < |r| ==> r[k].glyphIndex < |font.glyph|)
            && Pending(font, r) == TotalLength(font, glyphs)
  {
    hide InsertEntry, Pending, SortEntries, FreshEntries, TotalLength;
    if glyphs == [] {
      NothingToSort(font);
    } else {
      var front, last := glyphs[..|glyphs| - 1], glyphs[|glyphs| - 1];
      var before, key := FreshEntries(front), PageGlyphEntry(last, UINT32_MAX, 0);
      var r := SortEntries(before);
      SortFresh(font, front);
      FreshFront(glyphs);
      assert FreshEntries(glyphs) == before + [key];
      SortOneMore(before, key);
      InsertEntryMembers(r, key);
      InsertEntryPending(font, r, key);
      LengthOneMore(font, glyphs);
      NotYetListed(glyphs, r);
      InsertEntrySorts(r, key);
    }
  }

  lemma NothingToSort(font: EpdFontData)
    ensures FreshEntries([]) == [] && SortEntries([]) == [] && Pending(font, []) == 0 && TotalLength(font, []) == 0
  {
  }

  lemma SortOneMore(s: seq<PageGlyphEntry>, key: PageGlyphEntry)
    ensures SortEntries(s + [key]) == InsertEntry(SortEntries(s), key)
  {
    assert (s + [key])[..|s|] == s;
  }

  lemma LengthOneMore(font: EpdFontData, glyphs: seq<nat>)
    requires glyphs != [] && forall k :: 0 <= k < |glyphs| ==> glyphs[k] < |font.glyph|
    ensures var front, last := glyphs[..|glyphs| - 1], glyphs[|glyphs| - 1];
            TotalLength(font, glyphs) == TotalLength(font, front) + PendingEntry(font, PageGlyphEntry(last, UINT32_MAX, 0))
  {
  }

  lemma NotYetListed(glyphs: seq<nat>, r: seq<PageGlyphEntry>)
    requires glyphs != [] && forall j, k :: 0 <= j < k < |glyphs| ==> glyphs[j] != glyphs[k]
    requires forall e :: e in r ==> e in FreshEntries(glyphs[..|glyphs| - 1])
    ensures forall k :: 0 <= k < |r| ==> r[k].glyphIndex != glyphs[|glyphs| - 1]
  {
    forall k | 0 <= k < |r| ensures r[k].glyphIndex != glyphs[|glyphs| - 1] {
      assert r[k] in r;
    }
  }

  // The insertion sort of the lookup table, in place.
  method InsertionSort(entries: array<PageGlyphEntry>)
    modifies entries
    ensures entries[..] == SortEntries(old(entries[..]))
  {
    ghost var before := entries[..];
    var i := 0;
    while i < entries.Length
      invariant 0 <= i <= entries.Length
      invariant entries[..i] == SortEntries(before[..i]) && entries[i..] == before[i..]
    {
      hide InsertEntry, SortEntries;
      SortEntriesStep(before, i);
      assert entries[i] == entries[i..][0];
      InsertInPlace(entries, i);
      i := i + 1;
    }
    assert before[..i] == before && entries[..i] == entries[..];
  }

  lemma SortEntriesStep(s: seq<PageGlyphEntry>, i: nat)
    requires i < |s|
    ensures SortEntries(s[..i + 1]) == InsertEntry(SortEntries(s[..i]), s[i])
    ensures s[i..][0] == s[i] && s[i..][1..] == s[i + 1..]
  {
    assert s[..i + 1][..i] == s[..i];
  }

  // Shifts the larger entries before position i one place up and drops entry i into the gap.
  method InsertInPlace(entries: array<PageGlyphEntry>, i: nat)
    requires i < entries.Length
    modifies entries
    ensures entries[..i + 1] == InsertEntry(old(entries[..i]), old(entries[i]))
    ensures entries[i + 1..] == old(entries[i + 1..])
  {
    hide InsertEntry;
    ghost var before := entries[..];
    var key := entries[i];
    var j := i - 1;
    while j >= 0 && entries[j].glyphIndex > key.glyphIndex
      invariant -1 <= j < i
      invariant Shifted(before, entries[..], i, j + 1)
      invariant forall k :: j + 1 <= k < i ==> before[k].glyphIndex > key.glyphIndex
    {
      entries[j + 1] := entries[j];
      j := j - 1;
    }
    entries[j + 1] := key;
    InsertEntryAt(before[..i], key, j + 1);
    ShiftedIn(before, entries[..], i, j + 1);
  }

  // Entries gap..i have moved one place up; place gap itself is free.
  ghost predicate Shifted(before: seq<PageGlyphEntry>, now: seq<PageGlyphEntry>, i: nat, gap: nat) {
    && |now| == |before| && gap <= i < |before|
    && (forall k :: 0 <= k < gap ==> now[k] == before[k])
    && (forall k :: gap < k <= i ==> now[k] == before[k - 1])
    && (forall k :: i < k < |now| ==> now[k] == before[k])
  }

  lemma ShiftedIn(before: seq<PageGlyphEntry>, now: seq<PageGlyphEntry>, i: nat, gap: nat)
    requires Shifted(before, now, i, gap)
    ensures now[..i + 1] == before[..i][..gap] + [now[gap]] + before[..i][gap..]
    ensures now[i + 1..] == before[i + 1..]
  {
  }

  // The binary search that all lookups of an entry use.
  method FindEntry(entries: array<PageGlyphEntry>, glyphIndex: nat) returns (pos: int)
    requires SortedEntries(entries[..])
    ensures -1 <= pos < entries.Length
    ensures pos >= 0 ==> entries[pos].glyphIndex == glyphIndex
    ensures pos < 0 ==> forall k :: 0 <= k < entries.Length ==> entries[k].glyphIndex != glyphIndex
  {
    var left, right := 0, entries.Length - 1;
    while left <= right
      invariant 0 <= left <= right + 1 <= entries.Length
      invariant forall k :: 0 <= k < left ==> entries[..][k].glyphIndex < glyphIndex
      invariant forall k :: right < k < entries.Length ==> glyphIndex < entries[..][k].glyphIndex
    {
      var mid := left + (right - left) / 2;
      if entries[mid].glyphIndex == glyphIndex {
        return mid;
      }
      if entries[mid].glyphIndex < glyphIndex {
        left := mid + 1;
      } else {
        right := mid - 1;
      }
    }
    return -1;
  }
}
