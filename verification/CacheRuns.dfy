// Whole runs of the glyph cache: any sequence of operations on any number of fonts.
module CacheRuns {
  import opened Wrappers
  import opened FontData
  import opened PagePlan
  import opened PageLayout
  import opened GlyphCache

  datatype CacheOp = Prewarm(font: EpdFontData, text: seq<nat>) | Get(font: EpdFontData, glyphIndex: nat) | Clear

  ghost predicate OpValid(op: CacheOp) {
    match op
    case Prewarm(font, _) => WellFormed(font)
    case Get(font, i) => WellFormed(font) && i < |font.glyph|
    case Clear => true
  }

  // A lookup of a glyph with pixels answered with its reference bitmap.
  ghost predicate Transparent(inflate: seq<byte> -> seq<byte>, op: CacheOp, result: Option<seq<byte>>) {
    && OpValid(op)
    && (op.Get? && op.font.glyph[op.glyphIndex].dataLength > 0 ==>
          result == Reference(inflate, op.font, op.glyphIndex))
  }

  // The cache is transparent: in every run, every lookup of a glyph with pixels yields exactly the
  // reference bitmap (or nothing, exactly when the group does not inflate), whatever was prewarmed,
  // looked up or cleared before, and whichever allocations failed.
  method Run(d: FontDecompressor, ops: seq<CacheOp>) returns (results: seq<Option<seq<byte>>>)
    requires d.Valid() && forall k :: 0 <= k < |ops| ==> OpValid(ops[k])
    modifies d, d.hotGlyphBuf
    ensures d.Valid() && |results| == |ops|
    ensures forall k :: 0 <= k < |ops| ==> Transparent(d.inflate, ops[k], results[k])
  {
    hide WellFormed, Reference, SlotContents, TableHolds, NeededGlyphs, Transparent;
    results := [];
    for n := 0 to |ops|
      invariant d.Valid() && |results| == n
      invariant d.hotGlyphBuf == old(d.hotGlyphBuf) || fresh(d.hotGlyphBuf)
      invariant forall k :: 0 <= k < n ==> Transparent(d.inflate, ops[k], results[k])
    {
      var result := Step(d, ops[n]);
      results := results + [result];
    }
  }

  method Step(d: FontDecompressor, op: CacheOp) returns (result: Option<seq<byte>>)
    requires d.Valid() && OpValid(op)
    modifies d, d.hotGlyphBuf
    ensures d.Valid()
    ensures d.hotGlyphBuf == old(d.hotGlyphBuf) || fresh(d.hotGlyphBuf)
    ensures Transparent(d.inflate, op, result)
  {
    hide WellFormed, Reference, SlotContents, TableHolds, NeededGlyphs;
    result := None;
    match op {
      case Prewarm(font, text) =>
        var missed := d.PrewarmCache(font, Some(text));
      case Clear =>
        d.ClearCache();
      case Get(font, i) =>
        Compressed(font);
        var p := d.GetBitmap(font, font.glyph[i], i);
        if p.InRam? {
          result := Some(p.buffer[p.offset..p.offset + font.glyph[i].dataLength]);
        }
    }
  }

  lemma Compressed(font: EpdFontData)
    requires WellFormed(font)
    ensures font.groups != []
  {
  }

  // ----- what the result of prewarming says -----

  lemma {:induction false} NewSlotServes(slots: seq<PageSlot>, slot: PageSlot, font: EpdFontData, k: nat)
    requires k <= |slots| && SlotOf(slots, font, k) == |slots| && slot.fontData == font && slot.glyphs.Length > 0
    ensures SlotOf(slots + [slot], font, k) == |slots|
    decreases |slots| - k
  {
    if k < |slots| {
      NewSlotServes(slots, slot, font, k + 1);
    }
  }

  // Some entry of the table is the glyph's, and has been extracted.
  ghost predicate Extracts(s: seq<PageGlyphEntry>, i: nat) {
    exists e :: e in s && e.glyphIndex == i && Extracted(e)
  }

  ghost predicate AllExtracted(s: seq<PageGlyphEntry>, glyphs: seq<nat>) {
    forall i :: i in glyphs ==> Extracts(s, i)
  }

  lemma GroupsExtracted(font: EpdFontData, s: seq<PageGlyphEntry>, glyphs: seq<nat>, missed: int, i: nat)
    requires WellFormed(font) && TableHolds(font, s, glyphs, missed) && missed == 0 && i in glyphs
    requires |NeededGroups(font, glyphs)| < MAX_NEEDED_GROUPS
    ensures Extracts(s, i)
  {
    hide WellFormed, GroupIndex, NeededGroups, LeftOut;
    MappedLength(font);
    NothingLeftOut(font, s, NeededGroups(font, glyphs));
    var j :| 0 <= j < |glyphs| && glyphs[j] == i;
    assert GroupIndex(font, glyphs[j]) in NeededGroups(font, glyphs);
    var k :| 0 <= k < |s| && s[k].glyphIndex == i;
    assert GroupExtracted(font, s, GroupIndex(font, i));
    assert s[k] in s;
  }

  lemma OneEntryEach(font: EpdFontData, s: seq<PageGlyphEntry>, glyphs: seq<nat>, missed: int, k: nat)
    requires WellFormed(font) && TableHolds(font, s, glyphs, missed) && SortedEntries(s) && AllExtracted(s, glyphs) && k < |s|
    ensures Extracted(s[k])
  {
    hide WellFormed, GroupIndex, NeededGroups, LeftOut;
    assert Extracts(s, s[k].glyphIndex);
    var e :| e in s && e.glyphIndex == s[k].glyphIndex && Extracted(e);
    var j :| 0 <= j < |s| && s[j] == e;
  }

  // Below the limit on groups, nothing is left out exactly when every needed glyph has been extracted.
  lemma MissedIsExact(font: EpdFontData, s: seq<PageGlyphEntry>, glyphs: seq<nat>, missed: int)
    requires WellFormed(font) && TableHolds(font, s, glyphs, missed) && SortedEntries(s)
    requires |NeededGroups(font, glyphs)| < MAX_NEEDED_GROUPS
    ensures missed == 0 <==> AllExtracted(s, glyphs)
  {
    hide WellFormed, GroupIndex, LeftOut, Extracts, SortedEntries;
    if missed == 0 {
      forall i | i in glyphs ensures Extracts(s, i) {
        GroupsExtracted(font, s, glyphs, missed, i);
      }
    }
    if AllExtracted(s, glyphs) {
      forall k: nat | k < |s| ensures Extracted(s[k]) {
        OneEntryEach(font, s, glyphs, missed, k);
      }
      NothingLeftOut(font, s, NeededGroups(font, glyphs));
    }
  }

  ghost function GroupsOfText(font: EpdFontData, text: seq<nat>): seq<nat>
    requires WellFormed(font)
  {
    WellFormedIntervals(font);
    NeededGlyphsListed(font, text);
    NeededGroups(font, NeededGlyphs(font, text))
  }

  ghost predicate AllOnPage(slots: seq<PageSlot>, font: EpdFontData, glyphs: seq<nat>)
    reads set s | s in slots :: s.glyphs
  {
    forall i :: i in glyphs ==> OnPage(slots, font, i)
  }

  lemma PageServes(slots: seq<PageSlot>, slot: PageSlot, font: EpdFontData, glyphs: seq<nat>)
    requires SlotOf(slots, font, 0) == |slots| && slot.fontData == font && slot.glyphs.Length > 0
    ensures AllOnPage(slots + [slot], font, glyphs) <==> AllExtracted(slot.glyphs[..], glyphs)
  {
    NewSlotServes(slots, slot, font, 0);
    forall i | i in glyphs ensures OnPage(slots + [slot], font, i) <==> Extracts(slot.glyphs[..], i) {
    }
  }

  // Each glyph that the text shows, and the ligature of any two of them, is on the page.
  ghost predicate TextServed(slots: seq<PageSlot>, font: EpdFontData, text: seq<nat>)
    reads set s | s in slots :: s.glyphs
  {
    && (forall i: nat :: InText(font, text, i) ==> OnPage(slots, font, i))
    && (forall k :: 0 <= k < |font.ligaturePairs| && InText(font, text, LeftInput(font, font.ligaturePairs[k]))
                    && InText(font, text, RightInput(font, font.ligaturePairs[k]))
                    && GlyphIndexOf(font.intervals, font.ligaturePairs[k].ligatureCp) >= 0 ==>
                      OnPage(slots, font, GlyphIndexOf(font.intervals, font.ligaturePairs[k].ligatureCp)))
  }

  lemma TextOnPage(slots: seq<PageSlot>, font: EpdFontData, text: seq<nat>)
    requires AllOnPage(slots, font, NeededGlyphs(font, text)) && |NeededGlyphs(font, text)| < MAX_PAGE_GLYPHS
    ensures TextServed(slots, font, text)
  {
    hide NeededGlyphs, OnPage, GlyphIndexOf;
    forall i: nat | InText(font, text, i) ensures OnPage(slots, font, i) {
      var k: nat :| Shows(font, text, k) && GlyphIndexOf(font.intervals, text[k]) == i;
      ShownIsNeeded(font, text, k);
    }
    forall k | 0 <= k < |font.ligaturePairs| && InText(font, text, LeftInput(font, font.ligaturePairs[k]))
               && InText(font, text, RightInput(font, font.ligaturePairs[k]))
               && GlyphIndexOf(font.intervals, font.ligaturePairs[k].ligatureCp) >= 0
      ensures OnPage(slots, font, GlyphIndexOf(font.intervals, font.ligaturePairs[k].ligatureCp))
    {
      LigaturesListed(font, text, k);
    }
  }

  lemma ShownIsNeeded(font: EpdFontData, text: seq<nat>, k: nat)
    requires Shows(font, text, k) && |NeededGlyphs(font, text)| < MAX_PAGE_GLYPHS
    ensures GlyphIndexOf(font.intervals, text[k]) in NeededGlyphs(font, text)
  {
    hide NeededGlyphs, GlyphIndexOf;
    NeededGlyphsComplete(font, text, k);
  }

  // For a font without a slot, and below the limit on groups, the result is 0 exactly when every glyph
  // needed for the text is on its page; below the limit on glyphs, each glyph of the text and the ligature
  // of any two of them is then served from there.
  method PrewarmText(d: FontDecompressor, font: EpdFontData, text: seq<nat>) returns (missed: int)
    requires d.Valid() && WellFormed(font) && SlotOf(d.pageSlots, font, 0) == |d.pageSlots|
    modifies d`pageSlots
    ensures d.Valid() && (missed == -1 <==> |old(d.pageSlots)| == 4)
    ensures missed != -1 && |GroupsOfText(font, text)| < MAX_NEEDED_GROUPS ==>
              (missed == 0 <==> AllOnPage(d.pageSlots, font, NeededGlyphs(font, text)))
    ensures missed == 0 && |GroupsOfText(font, text)| < MAX_NEEDED_GROUPS && |NeededGlyphs(font, text)| < MAX_PAGE_GLYPHS ==>
              TextServed(d.pageSlots, font, text)
  {
    hide WellFormed, SlotContents, NeededGlyphs, NeededGroups, TableHolds, OnPage, AllOnPage, AllExtracted, SortedEntries, TextServed;
    Compressed(font);
    ghost var before, glyphs := d.pageSlots, NeededGlyphs(font, text);
    missed := d.PrewarmCache(font, Some(text));
    if |GroupsOfText(font, text)| < MAX_NEEDED_GROUPS && missed != -1 {
      if d.pageSlots != before {
        ghost var slot := d.pageSlots[|before|];
        assert d.pageSlots == before + [slot];
        assert d.SlotValid(slot);
        SlotIsSorted(d.inflate, font, slot.buffer[..], slot.glyphs[..]);
        TableIsLong(font, slot.glyphs[..], glyphs, missed);
        PageServes(before, slot, font, glyphs);
        MissedIsExact(font, slot.glyphs[..], glyphs, missed);
      } else {
        NoSlotNoPage(before, font, glyphs);
      }
      if missed == 0 && |glyphs| < MAX_PAGE_GLYPHS { TextOnPage(d.pageSlots, font, text); }
    }
  }

  lemma SlotIsSorted(inflate: seq<byte> -> seq<byte>, font: EpdFontData, buffer: seq<byte>, s: seq<PageGlyphEntry>)
    requires SlotContents(inflate, font, buffer, s)
    ensures SortedEntries(s)
  {
  }

  lemma TableIsLong(font: EpdFontData, s: seq<PageGlyphEntry>, glyphs: seq<nat>, missed: int)
    requires WellFormed(font) && TableHolds(font, s, glyphs, missed)
    ensures |s| > 0
  {
  }

  lemma NoSlotNoPage(slots: seq<PageSlot>, font: EpdFontData, glyphs: seq<nat>)
    requires SlotOf(slots, font, 0) == |slots|
    ensures AllOnPage(slots, font, glyphs) <==> glyphs == []
  {
    if glyphs != [] {
      assert glyphs[0] in glyphs;
      assert !OnPage(slots, font, glyphs[0]);
    }
  }
}
