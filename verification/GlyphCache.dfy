// FontDecompressor (lib/EpdFont/FontDecompressor.cpp): the bitmap of a glyph by way of the page
// slots, the hot group, or a fresh inflate.
module GlyphCache {
  import opened Wrappers
  import opened PixelPacking
  import opened FontData
  import opened PagePlan
  import opened PageLayout

  const MAX_PAGE_SLOTS := 4

  datatype PageSlot = PageSlot(buffer: array<byte>, fontData: EpdFontData, glyphs: array<PageGlyphEntry>)

  // A pointer to a glyph bitmap: none, into the font's flash image, or into a cache buffer.
  datatype BitmapPointer = Null | InFlash(offset: nat) | InRam(buffer: array<byte>, offset: nat)

  // The place of the first slot from k on that serves the font, or the number of slots.
  ghost function SlotOf(slots: seq<PageSlot>, font: EpdFontData, k: nat): (r: nat)
    requires k <= |slots|
    ensures k <= r <= |slots|
    decreases |slots| - k
  {
    if k == |slots| then k
    else if slots[k].fontData == font && slots[k].glyphs.Length > 0 then k
    else SlotOf(slots, font, k + 1)
  }

  // The glyph has been extracted into the page buffer of the first slot that serves the font.
  ghost predicate OnPage(slots: seq<PageSlot>, font: EpdFontData, glyphIndex: nat)
    reads set s | s in slots :: s.glyphs
  {
    var k := SlotOf(slots, font, 0);
    k < |slots| && exists e :: e in slots[k].glyphs[..] && e.glyphIndex == glyphIndex && Extracted(e)
  }

  // A slot's table lists exactly the needed glyphs; the groups that inflated gave all theirs.
  ghost predicate TableHolds(font: EpdFontData, s: seq<PageGlyphEntry>, glyphs: seq<nat>, missed: int)
    requires WellFormed(font)
  {
    && |s| == |glyphs| > 0 && GlyphList(font, glyphs) && IndicesValid(font, s)
    && (forall k :: 0 <= k < |s| ==> s[k].glyphIndex in glyphs)
    && (forall i :: i in glyphs ==> exists k :: 0 <= k < |s| && s[k].glyphIndex == i)
    && missed == LeftOut(font, s, NeededGroups(font, glyphs))
  }

  class FontDecompressor {
    const inflate: seq<byte> -> seq<byte>
    var pageSlots: seq<PageSlot>
    var hotGroupFont: EpdFontData?
    var hotGroupIndex: nat
    var hotGroup: array<byte>
    var hotGlyphBuf: array<byte>

    ghost predicate Valid()
      reads this, hotGroup, hotGlyphBuf
      reads set s | s in pageSlots :: s.buffer
      reads set s | s in pageSlots :: s.glyphs
    {
      && |pageSlots| <= MAX_PAGE_SLOTS
      && (forall s :: s in pageSlots ==> SlotValid(s))
      && hotGroup != hotGlyphBuf
      && HotValid()
    }

    ghost predicate SlotValid(s: PageSlot)
      reads this`hotGroup, this`hotGlyphBuf, s.buffer, s.glyphs
    {
      && s.buffer != hotGlyphBuf && s.buffer != hotGroup
      && SlotContents(inflate, s.fontData, s.buffer[..], s.glyphs[..])
    }

    // A named hot group holds that group, inflated.
    ghost predicate HotValid()
      reads this`hotGroup, this`hotGroupFont, this`hotGroupIndex, hotGroup
    {
      hotGroup.Length > 0 && hotGroupFont != null ==>
        && WellFormed(hotGroupFont) && hotGroupIndex < |hotGroupFont.groups| && GroupFits(hotGroupFont, hotGroupIndex)
        && InflateGroup(inflate, hotGroupFont, hotGroupIndex) == Some(hotGroup[..])
    }

    constructor (inflate: seq<byte> -> seq<byte>)
      ensures Valid() && this.inflate == inflate && pageSlots == []
      ensures fresh(hotGroup) && fresh(hotGlyphBuf)
    {
      this.inflate := inflate;
      pageSlots := [];
      hotGroupFont := null;
      hotGroupIndex := 0xFFFF;
      hotGroup := new byte[0];
      hotGlyphBuf := new byte[0];
      new;
    }

    method ClearCache()
      requires Valid()
      modifies this
      ensures Valid() && pageSlots == [] && hotGroupFont == null
      ensures fresh(hotGroup) && fresh(hotGlyphBuf) && hotGroup.Length == hotGlyphBuf.Length == 0
    {
      FreePageBuffer();
      FreeHotGroup();
    }

    method FreePageBuffer()
      requires Valid()
      modifies this`pageSlots
      ensures Valid() && pageSlots == []
    {
      pageSlots := [];
    }

    method FreeHotGroup()
      requires Valid()
      modifies this`hotGroup, this`hotGroupFont, this`hotGroupIndex, this`hotGlyphBuf
      ensures Valid() && hotGroupFont == null
      ensures fresh(hotGroup) && fresh(hotGlyphBuf) && hotGroup.Length == hotGlyphBuf.Length == 0
    {
      hotGroup := new byte[0];
      hotGroupFont := null;
      hotGroupIndex := 0xFFFF;
      hotGlyphBuf := new byte[0];
    }

    // Whatever the route, a bitmap that getBitmap returns is the reference bitmap, and it returns
    // one exactly when the group inflates (glyphs without pixels have no bytes to get wrong).
    // A page hit leaves the hot group alone, and no page buffer is ever written.
    method GetBitmap(font: EpdFontData, glyph: Glyph, glyphIndex: nat) returns (p: BitmapPointer)
      requires Valid()
      requires font.groups != [] ==> WellFormed(font)
      requires glyphIndex < |font.glyph| && glyph == font.glyph[glyphIndex]
      modifies this`hotGroup, this`hotGroupFont, this`hotGroupIndex, this`hotGlyphBuf, hotGlyphBuf
      ensures Valid()
      ensures hotGroup == old(hotGroup) || fresh(hotGroup)
      ensures hotGlyphBuf == old(hotGlyphBuf) || fresh(hotGlyphBuf)
      ensures font.groups == [] ==> p == InFlash(glyph.dataOffset)
      ensures font.groups != [] ==> !p.InFlash?
      ensures font.groups != [] && p.InRam? ==>
                && p.offset + glyph.dataLength <= p.buffer.Length
                && Reference(inflate, font, glyphIndex) == Some(p.buffer[p.offset..p.offset + glyph.dataLength])
      ensures font.groups != [] && p.Null? ==> Reference(inflate, font, glyphIndex).None? || glyph.dataLength == 0
      ensures font.groups != [] && old(OnPage(pageSlots, font, glyphIndex)) ==>
                && p.InRam? && p.buffer == pageSlots[SlotOf(pageSlots, font, 0)].buffer
                && hotGroup == old(hotGroup) && hotGlyphBuf == old(hotGlyphBuf)
                && hotGroupFont == old(hotGroupFont) && hotGroupIndex == old(hotGroupIndex)
    {
      hide WellFormed, Reference, SlotContents;
      if font.groups == [] {
        return InFlash(glyph.dataOffset);
      }
      p := LookUpPage(font, glyphIndex);
      if p == Null {
        p := FromGroup(font, glyph, glyphIndex);
      }
    }

    // The page-slot route.
    method LookUpPage(font: EpdFontData, glyphIndex: nat) returns (p: BitmapPointer)
      requires Valid() && WellFormed(font) && glyphIndex < |font.glyph|
      ensures !p.InFlash?
      ensures p.InRam? ==>
                && p.offset + font.glyph[glyphIndex].dataLength <= p.buffer.Length
                && Reference(inflate, font, glyphIndex)
                   == Some(p.buffer[p.offset..p.offset + font.glyph[glyphIndex].dataLength])
      ensures p.InRam? <==> OnPage(pageSlots, font, glyphIndex)
      ensures p.InRam? ==> p.buffer == pageSlots[SlotOf(pageSlots, font, 0)].buffer
    {
      hide WellFormed, Reference;
      var s := 0;
      while s < |pageSlots|
        invariant 0 <= s <= |pageSlots|
        invariant SlotOf(pageSlots, font, 0) == SlotOf(pageSlots, font, s)
      {
        var slot := pageSlots[s];
        if slot.fontData != font || slot.glyphs.Length == 0 {
          s := s + 1;
          continue;
        }
        assert SlotValid(slot);
        ghost var entries := slot.glyphs[..];
        var pos := FindEntry(slot.glyphs, glyphIndex);
        if pos >= 0 && slot.glyphs[pos].bufferOffset != UINT32_MAX {
          assert Served(inflate, font, slot.buffer[..], entries[pos]);
          assert entries[pos] in entries;
          return InRam(slot.buffer, slot.glyphs[pos].bufferOffset);
        }
        return Null;
      }
      return Null;
    }

    // The hot-group route, and the miss that inflates the group first.
    method FromGroup(font: EpdFontData, glyph: Glyph, glyphIndex: nat) returns (p: BitmapPointer)
      requires Valid() && WellFormed(font)
      requires glyphIndex < |font.glyph| && glyph == font.glyph[glyphIndex]
      modifies this`hotGroup, this`hotGroupFont, this`hotGroupIndex, this`hotGlyphBuf, hotGlyphBuf
      ensures Valid() && !p.InFlash?
      ensures hotGroup == old(hotGroup) || fresh(hotGroup)
      ensures hotGlyphBuf == old(hotGlyphBuf) || fresh(hotGlyphBuf)
      ensures p.InRam? ==>
                && p.offset + glyph.dataLength <= p.buffer.Length
                && Reference(inflate, font, glyphIndex) == Some(p.buffer[p.offset..p.offset + glyph.dataLength])
      ensures p.Null? ==> Reference(inflate, font, glyphIndex).None? || glyph.dataLength == 0
    {
      hide WellFormed, SlotContents, Reference, Packed, AlignedLength, PackedLength, AlignedSize, HotValid;
      hide InflateGroup, GroupIndex;
      MappedLength(font);
      var groupIndex := GetGroupIndex(font, glyphIndex);
      GroupExists(font, glyphIndex);
      if groupIndex >= |font.groups| {
        return Null;
      }
      var ok := HaveHotGroup(font, groupIndex);
      if !ok {
        NoReference(inflate, font, glyphIndex);
        return Null;
      }
      GrowScratch(glyph.dataLength);
      if hotGlyphBuf.Length == 0 {
        return Null;
      }
      var alignedOff := GetAlignedOffset(font, groupIndex, glyphIndex);
      CutHere(inflate, font, hotGroup[..], glyphIndex);
      CompactSingleGlyph(hotGroup, alignedOff, hotGlyphBuf, 0, glyph.width, glyph.height);
      return InRam(hotGlyphBuf, 0);
    }

    // The scratch buffer only ever grows.
    method GrowScratch(dataLength: nat)
      requires Valid()
      modifies this`hotGlyphBuf
      ensures Valid() && dataLength <= hotGlyphBuf.Length && old(hotGlyphBuf.Length) <= hotGlyphBuf.Length
      ensures hotGlyphBuf == old(hotGlyphBuf) || fresh(hotGlyphBuf)
    {
      hide SlotContents, HotValid;
      if dataLength > hotGlyphBuf.Length {
        hotGlyphBuf := new byte[dataLength];
      }
    }

    // A hit when the hot group is the given one already, and otherwise a miss.
    method HaveHotGroup(font: EpdFontData, groupIndex: nat) returns (ok: bool)
      requires Valid() && WellFormed(font) && groupIndex < |font.groups| && GroupFits(font, groupIndex)
      modifies this`hotGroup, this`hotGroupFont, this`hotGroupIndex
      ensures Valid() && (hotGroup == old(hotGroup) || fresh(hotGroup))
      ensures ok ==> InflateGroup(inflate, font, groupIndex) == Some(hotGroup[..])
      ensures !ok ==> InflateGroup(inflate, font, groupIndex).None? || font.groups[groupIndex].uncompressedSize == 0
    {
      hide WellFormed, SlotContents, InflateGroup;
      ok := true;
      if !(hotGroup.Length > 0 && hotGroupFont == font && hotGroupIndex == groupIndex) {
        ok := LoadHotGroup(font, groupIndex);
      }
    }

    // Replaces the hot group by the given one; on failure there is no hot group.
    method LoadHotGroup(font: EpdFontData, groupIndex: nat) returns (ok: bool)
      requires Valid() && WellFormed(font) && groupIndex < |font.groups| && GroupFits(font, groupIndex)
      modifies this`hotGroup, this`hotGroupFont, this`hotGroupIndex
      ensures Valid() && fresh(hotGroup)
      ensures ok ==> hotGroup.Length > 0 && hotGroupFont == font && hotGroupIndex == groupIndex
      ensures ok <==> InflateGroup(inflate, font, groupIndex).Some? && font.groups[groupIndex].uncompressedSize > 0
    {
      hide WellFormed, SlotContents;
      hotGroup := new byte[font.groups[groupIndex].uncompressedSize];
      if hotGroup.Length == 0 {
        hotGroupFont := null;
        hotGroupIndex := 0xFFFF;
        return false;
      }
      ok := DecompressGroup(inflate, font, groupIndex, hotGroup);
      if ok {
        hotGroupFont := font;
        hotGroupIndex := groupIndex;
      } else {
        hotGroup := new byte[0];
        hotGroupFont := null;
        hotGroupIndex := 0xFFFF;
      }
    }

    // Fills the next page slot with the glyphs of a text. Any allocation may fail.
    // The result is -1 when all slots are taken, the number of glyphs when the slot could not be
    // allocated, and otherwise the number of groups whose glyphs had to be left out.
    method PrewarmCache(font: EpdFontData?, text: Option<seq<nat>>) returns (missed: int)
      requires Valid()
      requires font != null && font.groups != [] ==> WellFormed(font)
      modifies this`pageSlots
      ensures Valid()
      ensures pageSlots == old(pageSlots)
           || (|pageSlots| == |old(pageSlots)| + 1 && pageSlots[..|old(pageSlots)|] == old(pageSlots))
      ensures font == null || font.groups == [] || text.None? ==> missed == 0 && pageSlots == old(pageSlots)
      ensures missed == -1 <==>
                font != null && font.groups != [] && text.Some? && |old(pageSlots)| == MAX_PAGE_SLOTS
      ensures pageSlots != old(pageSlots) ==>
                && font != null && font.groups != [] && text.Some?
                && var slot := pageSlots[|old(pageSlots)|];
                && fresh(slot.buffer) && fresh(slot.glyphs) && slot.fontData == font
                && TableHolds(font, slot.glyphs[..], NeededGlyphs(font, text.value), missed)
      ensures pageSlots == old(pageSlots) && missed != -1 && font != null && font.groups != [] && text.Some? ==>
                missed == |NeededGlyphs(font, text.value)|
    {
      hide WellFormed, SlotContents, GlyphList, TableHolds, HotValid, Enumerates, SortedIntervals;
      hide TextGlyphs, WithLigatures;
      if font == null || font.groups == [] || text.None? { return 0; }
      if |pageSlots| >= MAX_PAGE_SLOTS { return -1; }
      WellFormedIntervals(font);
      var neededGlyphs := new nat[MAX_PAGE_GLYPHS];
      var glyphCount := CollectTextGlyphs(font, text.value, neededGlyphs);
      glyphCount := AddLigatureGlyphs(font, neededGlyphs, glyphCount);
      assert neededGlyphs[..glyphCount] == NeededGlyphs(font, text.value);
      NeededGlyphsListed(font, text.value);
      if glyphCount == 0 { return 0; }
      missed := FillSlot(font, NeededGlyphs(font, text.value), neededGlyphs, glyphCount);
    }

    method FillSlot(font: EpdFontData, ghost glyphs: seq<nat>, neededGlyphs: array<nat>, glyphCount: nat)
      returns (missed: int)
      requires Valid() && WellFormed(font) && |pageSlots| < MAX_PAGE_SLOTS
      requires 0 < glyphCount <= neededGlyphs.Length && neededGlyphs[..glyphCount] == glyphs
      requires GlyphList(font, glyphs)
      modifies this`pageSlots
      ensures Valid() && missed >= 0
      ensures pageSlots == old(pageSlots) ==> missed == glyphCount
      ensures pageSlots != old(pageSlots) ==>
                && |pageSlots| == |old(pageSlots)| + 1 && pageSlots[..|old(pageSlots)|] == old(pageSlots)
                && var slot := pageSlots[|old(pageSlots)|];
                && fresh(slot.buffer) && fresh(slot.glyphs) && slot.fontData == font
                && TableHolds(font, slot.glyphs[..], glyphs, missed)
    {
      hide WellFormed, SlotContents, GlyphList, TableHolds, HotValid, NeededGroups, TotalLength;
      var neededGroups := new nat[MAX_NEEDED_GROUPS];
      var totalBytes, groupCount := CollectGroups(font, neededGlyphs, glyphCount, neededGroups);
      var memoryOk: bool := *;
      if !memoryOk { return glyphCount; }
      var slot := NewSlot(font, neededGlyphs, glyphCount, totalBytes);
      missed := ExtractAll(inflate, font, slot.buffer, slot.glyphs, glyphs, neededGroups, groupCount);
      FilledTable(font, slot.glyphs[..], glyphs, missed);
      pageSlots := pageSlots + [slot];
    }
  }

  lemma FilledTable(font: EpdFontData, s: seq<PageGlyphEntry>, glyphs: seq<nat>, missed: int)
    requires WellFormed(font) && GlyphList(font, glyphs) && glyphs != []
    requires SameGlyphs(SortEntries(FreshEntries(glyphs)), s)
    requires missed == LeftOut(font, s, NeededGroups(font, glyphs))
    ensures TableHolds(font, s, glyphs, missed)
  {
    hide WellFormed, SortEntries, LeftOut, NeededGroups;
    SortFresh(font, glyphs);
    var sorted := SortEntries(FreshEntries(glyphs));
    forall k | 0 <= k < |s| ensures s[k].glyphIndex in glyphs {
      assert sorted[k] in FreshEntries(glyphs);
    }
    forall i | i in glyphs ensures exists k :: 0 <= k < |s| && s[k].glyphIndex == i {
      var j :| 0 <= j < |glyphs| && glyphs[j] == i;
      assert FreshEntries(glyphs)[j] in sorted;
      var k :| 0 <= k < |sorted| && sorted[k] == FreshEntries(glyphs)[j];
      assert s[k].glyphIndex == i;
    }
  }

  lemma WellFormedIntervals(font: EpdFontData)
    requires WellFormed(font)
    ensures Enumerates(font.intervals, |font.glyph|) && SortedIntervals(font.intervals)
  {
  }

  lemma GroupExists(font: EpdFontData, i: nat)
    requires WellFormed(font) && i < |font.glyph|
    ensures GroupIndex(font, i) < |font.groups| && GroupFits(font, GroupIndex(font, i))
  {
  }

  // No bitmap without an inflated group; a group of no bytes has only glyphs without pixels.
  lemma NoReference(inflate: seq<byte> -> seq<byte>, font: EpdFontData, i: nat)
    requires WellFormed(font) && i < |font.glyph|
    requires var g := GroupIndex(font, i);
             GroupFits(font, g) && (InflateGroup(inflate, font, g).None? || font.groups[g].uncompressedSize == 0)
    ensures Reference(inflate, font, i).None? || font.glyph[i].dataLength == 0
  {
    GlyphRegionInGroup(font, i);
    if AlignedSize(font.glyph[i]) == 0 {
      EmptyGlyph(font.glyph[i].width, font.glyph[i].height);
    }
  }

  lemma EmptyGlyph(width: nat, height: nat)
    requires AlignedLength(width, height) == 0
    ensures PackedLength(width, height) == 0
  {
    if width > 0 && height > 0 {
      TimesMonotone(1, RowStride(width), height);
    }
  }

  // The offset that getAlignedOffset returns is where the reference cuts.
  lemma CutHere(inflate: seq<byte> -> seq<byte>, font: EpdFontData, data: seq<byte>, i: nat)
    requires WellFormed(font) && i < |font.glyph|
    requires GroupFits(font, GroupIndex(font, i)) && InflateGroup(inflate, font, GroupIndex(font, i)) == Some(data)
    ensures var glyph, offset := font.glyph[i], AlignedBefore(font, GroupIndex(font, i), i);
            && offset + AlignedLength(glyph.width, glyph.height) <= |data|
            && glyph.dataLength == PackedLength(glyph.width, glyph.height)
            && Reference(inflate, font, i)
               == Some(Packed(data[offset..offset + AlignedLength(glyph.width, glyph.height)], glyph.width, glyph.height))
  {
    hide Packed, PackedLength, AlignedLength;
    GlyphRegionInGroup(font, i);
  }

  // Step 3: the page buffer and the sorted lookup table.
  method NewSlot(font: EpdFontData, neededGlyphs: array<nat>, glyphCount: nat, totalBytes: nat) returns (slot: PageSlot)
    requires glyphCount <= neededGlyphs.Length
    ensures fresh(slot.buffer) && fresh(slot.glyphs) && slot.fontData == font
    ensures slot.buffer.Length == totalBytes
    ensures slot.glyphs[..] == SortEntries(FreshEntries(neededGlyphs[..glyphCount]))
  {
    var buffer := new byte[totalBytes];
    var glyphs := new PageGlyphEntry[glyphCount];
    for i := 0 to glyphCount
      invariant glyphs[..i] == FreshEntries(neededGlyphs[..i])
    {
      glyphs[i] := PageGlyphEntry(neededGlyphs[i], UINT32_MAX, 0);
    }
    assert glyphs[..] == glyphs[..glyphCount];
    InsertionSort(glyphs);
    slot := PageSlot(buffer, font, glyphs);
  }

  // Steps 3b and 4 for one slot.
  method ExtractAll(inflate: seq<byte> -> seq<byte>, font: EpdFontData, buffer: array<byte>,
                    entries: array<PageGlyphEntry>, ghost glyphs: seq<nat>, groups: array<nat>, groupCount: nat)
    returns (missed: nat)
    requires WellFormed(font) && GlyphList(font, glyphs)
    requires entries[..] == SortEntries(FreshEntries(glyphs)) && buffer.Length == TotalLength(font, glyphs)
    requires groupCount <= groups.Length == MAX_NEEDED_GROUPS && groups[..groupCount] == NeededGroups(font, glyphs)
    modifies buffer, entries
    ensures SlotContents(inflate, font, buffer[..], entries[..])
    ensures SameGlyphs(SortEntries(FreshEntries(glyphs)), entries[..])
    ensures missed == LeftOut(font, entries[..], groups[..groupCount])
  {
    hide WellFormed, Extracting, AllAligned, GroupIndex, Progressed, SortEntries, NeededGroups, TotalLength, GlyphList;
    hide LeftOut, Untouched, HasEntryOf, GroupExtracted;
    ghost var before := entries[..];
    FreshTable(inflate, font, buffer[..], glyphs);
    NeededGroupsValid(font, glyphs);
    if font.glyphToGroup.Some? {
      AlignMapped(font, entries, groups, groupCount);
    } else {
      AlignContiguous(font, entries, groups, groupCount);
    }
    ghost var aligned := entries[..];
    AlignedTable(inflate, font, buffer[..], before, aligned);
    NothingTouched(font, before, aligned);
    assert groups[..0] == [];
    var writeOffset: nat := 0;
    missed := 0;
    for g := 0 to groupCount
      invariant Extracting(inflate, font, buffer[..], entries[..], writeOffset)
      invariant IndicesValid(font, entries[..]) && AllAligned(font, entries[..], groups[..groupCount])
      invariant SameGlyphs(before, entries[..])
      invariant missed == LeftOut(font, entries[..], groups[..g]) && Untouched(font, entries[..], groups[..g])
    {
      var groupIdx := groups[g];
      assert groups[..groupCount][g] == groupIdx;
      GroupInTable(font, groupIdx);
      assert groups[..g] + [groupIdx] == groups[..g + 1];
      LeftOutNext(font, entries[..], groups[..groupCount], g);
      assert groups[..groupCount][..g] == groups[..g] && groups[..groupCount][..g + 1] == groups[..g + 1];
      GroupHasEntry(font, glyphs, entries[..], groupIdx);
      Skipped(font, entries[..], groups[..g], groupIdx);
      var memoryOk: bool := *;
      if !memoryOk {
        missed := missed + 1;
        continue;
      }
      var tempBuf := new byte[font.groups[groupIdx].uncompressedSize];
      var ok := DecompressGroup(inflate, font, groupIdx, tempBuf);
      if !ok {
        missed := missed + 1;
        continue;
      }
      ghost var was := entries[..];
      AlignedForOne(font, was, groups[..groupCount], groupIdx);
      writeOffset := ExtractGroup(inflate, font, groupIdx, tempBuf, buffer, entries, writeOffset);
      GroupDone(font, was, entries[..], groups[..groupCount], g);
      SameGlyphsTransitive(before, was, entries[..]);
    }
    ExtractingEnds(inflate, font, buffer[..], entries[..], writeOffset);
  }

  ghost predicate SameGlyphs(s: seq<PageGlyphEntry>, t: seq<PageGlyphEntry>) {
    && |s| == |t|
    && forall k :: 0 <= k < |s| ==> t[k].glyphIndex == s[k].glyphIndex
  }

  lemma SameGlyphsTransitive(s: seq<PageGlyphEntry>, t: seq<PageGlyphEntry>, u: seq<PageGlyphEntry>)
    requires SameGlyphs(s, t) && Progressed(t, u)
    ensures SameGlyphs(s, u)
  {
  }

  // Every entry of the group has been extracted.
  ghost predicate GroupExtracted(font: EpdFontData, s: seq<PageGlyphEntry>, g: nat)
    requires WellFormed(font)
  {
    forall k :: 0 <= k < |s| && s[k].glyphIndex < |font.glyph| && GroupIndex(font, s[k].glyphIndex) == g ==> Extracted(s[k])
  }

  // How many of the groups were left out.
  ghost function LeftOut(font: EpdFontData, s: seq<PageGlyphEntry>, groups: seq<nat>): nat
    requires WellFormed(font)
  {
    if groups == [] then 0
    else LeftOut(font, s, groups[..|groups| - 1]) + if GroupExtracted(font, s, groups[|groups| - 1]) then 0 else 1
  }

  // Entries of other groups have not been extracted.
  ghost predicate Untouched(font: EpdFontData, s: seq<PageGlyphEntry>, done: seq<nat>)
    requires WellFormed(font)
  {
    forall k :: 0 <= k < |s| && s[k].glyphIndex < |font.glyph| && GroupIndex(font, s[k].glyphIndex) !in done ==> !Extracted(s[k])
  }

  ghost predicate HasEntryOf(font: EpdFontData, s: seq<PageGlyphEntry>, g: nat)
    requires WellFormed(font)
  {
    exists k :: 0 <= k < |s| && s[k].glyphIndex < |font.glyph| && GroupIndex(font, s[k].glyphIndex) == g
  }

  // A result of 0 means that every glyph of the groups is on the page.
  lemma {:induction false} NothingLeftOut(font: EpdFontData, s: seq<PageGlyphEntry>, groups: seq<nat>)
    requires WellFormed(font)
    ensures LeftOut(font, s, groups) == 0 <==> forall g :: g in groups ==> GroupExtracted(font, s, g)
  {
    hide GroupExtracted, WellFormed;
    if groups != [] {
      var front, last := groups[..|groups| - 1], groups[|groups| - 1];
      NothingLeftOut(font, s, front);
      assert groups == front + [last];
      assert last in groups;
      forall g | g in front ensures g in groups {}
    }
  }

  lemma LeftOutNext(font: EpdFontData, s: seq<PageGlyphEntry>, groups: seq<nat>, g: nat)
    requires WellFormed(font) && g < |groups|
    ensures LeftOut(font, s, groups[..g + 1])
         == LeftOut(font, s, groups[..g]) + if GroupExtracted(font, s, groups[g]) then 0 else 1
  {
    hide GroupExtracted, WellFormed;
    assert groups[..g + 1][..g] == groups[..g];
  }

  lemma {:induction false} NeededGroupsUsed(font: EpdFontData, glyphs: seq<nat>, g: nat)
    requires WellFormed(font) && (forall k :: 0 <= k < |glyphs| ==> glyphs[k] < |font.glyph|) && g in NeededGroups(font, glyphs)
    ensures exists j :: 0 <= j < |glyphs| && GroupIndex(font, glyphs[j]) == g
  {
    hide WellFormed, GroupIndex;
    MappedLength(font);
    var front, last := glyphs[..|glyphs| - 1], glyphs[|glyphs| - 1];
    if g in NeededGroups(font, front) {
      NeededGroupsUsed(font, front, g);
      var j :| 0 <= j < |front| && GroupIndex(font, front[j]) == g;
      assert GroupIndex(font, glyphs[j]) == g;
    } else {
      assert GroupIndex(font, glyphs[|glyphs| - 1]) == g;
    }
  }

  lemma GroupHasEntry(font: EpdFontData, glyphs: seq<nat>, s: seq<PageGlyphEntry>, g: nat)
    requires WellFormed(font) && GlyphList(font, glyphs) && SameGlyphs(SortEntries(FreshEntries(glyphs)), s)
    requires g in NeededGroups(font, glyphs)
    ensures HasEntryOf(font, s, g)
  {
    hide WellFormed, SortEntries, GroupIndex, NeededGroups;
    MappedLength(font);
    SortFresh(font, glyphs);
    NeededGroupsUsed(font, glyphs, g);
    var j :| 0 <= j < |glyphs| && GroupIndex(font, glyphs[j]) == g;
    var sorted := SortEntries(FreshEntries(glyphs));
    assert FreshEntries(glyphs)[j] in sorted;
    var k :| 0 <= k < |sorted| && sorted[k] == FreshEntries(glyphs)[j];
    assert s[k].glyphIndex == glyphs[j];
  }

  // A group passed over stays unextracted, entry by entry.
  lemma Skipped(font: EpdFontData, s: seq<PageGlyphEntry>, done: seq<nat>, g: nat)
    requires WellFormed(font) && Untouched(font, s, done) && HasEntryOf(font, s, g) && g !in done
    ensures !GroupExtracted(font, s, g) && Untouched(font, s, done + [g])
  {
    hide WellFormed, GroupIndex;
  }

  lemma NothingTouched(font: EpdFontData, s: seq<PageGlyphEntry>, t: seq<PageGlyphEntry>)
    requires WellFormed(font) && SameKeys(s, t) && forall k :: 0 <= k < |s| ==> !Extracted(s[k])
    ensures LeftOut(font, t, []) == 0 && Untouched(font, t, [])
  {
    hide WellFormed, GroupIndex;
  }

  lemma {:induction false} LeftOutSame(font: EpdFontData, was: seq<PageGlyphEntry>, now: seq<PageGlyphEntry>, done: seq<nat>, g: nat)
    requires WellFormed(font) && g !in done && SameOthers(font, was, now, g)
    ensures LeftOut(font, now, done) == LeftOut(font, was, done)
  {
    hide WellFormed, GroupIndex;
    if done != [] {
      var last := done[|done| - 1];
      LeftOutSame(font, was, now, done[..|done| - 1], g);
      assert last in done;
      assert GroupExtracted(font, now, last) <==> GroupExtracted(font, was, last);
    }
  }

  // Only entries of group g differ.
  ghost predicate SameOthers(font: EpdFontData, was: seq<PageGlyphEntry>, now: seq<PageGlyphEntry>, g: nat)
    requires WellFormed(font)
  {
    && |was| == |now|
    && (forall k :: 0 <= k < |now| ==> now[k].glyphIndex == was[k].glyphIndex)
    && (forall k :: 0 <= k < |now| && now[k].glyphIndex < |font.glyph| && GroupIndex(font, now[k].glyphIndex) != g ==>
          now[k] == was[k])
  }

  lemma FreshTable(inflate: seq<byte> -> seq<byte>, font: EpdFontData, buffer: seq<byte>, glyphs: seq<nat>)
    requires WellFormed(font) && GlyphList(font, glyphs) && |buffer| == TotalLength(font, glyphs)
    ensures var s := SortEntries(FreshEntries(glyphs));
            && IndicesValid(font, s) && SortedEntries(s) && Extracting(inflate, font, buffer, s, 0)
            && forall k :: 0 <= k < |s| ==> !Extracted(s[k])
  {
    hide WellFormed, SortEntries;
    SortFresh(font, glyphs);
    TotalLengthBound(font, glyphs);
    var s := SortEntries(FreshEntries(glyphs));
    forall k | 0 <= k < |s| ensures !Extracted(s[k]) {
      assert s[k] in FreshEntries(glyphs);
    }
  }

  lemma NeededGroupsValid(font: EpdFontData, glyphs: seq<nat>)
    requires WellFormed(font) && GlyphList(font, glyphs)
    ensures var r := NeededGroups(font, glyphs);
            && (forall j, k :: 0 <= j < k < |r| ==> r[j] != r[k])
            && (forall k :: 0 <= k < |r| ==> r[k] < |font.groups|)
  {
  }

  lemma GroupInTable(font: EpdFontData, g: nat)
    requires WellFormed(font) && g < |font.groups|
    ensures GroupFits(font, g)
  {
  }

  lemma {:induction false} PendingSameKeys(font: EpdFontData, s: seq<PageGlyphEntry>, t: seq<PageGlyphEntry>)
    requires IndicesValid(font, s) && SameKeys(s, t)
    ensures IndicesValid(font, t) && Pending(font, t) == Pending(font, s)
  {
    if s != [] {
      PendingSameKeys(font, s[..|s| - 1], t[..|t| - 1]);
    }
  }

  lemma AlignedTable(inflate: seq<byte> -> seq<byte>, font: EpdFontData, buffer: seq<byte>,
                     s: seq<PageGlyphEntry>, t: seq<PageGlyphEntry>)
    requires Extracting(inflate, font, buffer, s, 0) && SameKeys(s, t)
    requires forall k :: 0 <= k < |s| ==> !Extracted(s[k])
    ensures Extracting(inflate, font, buffer, t, 0) && SameGlyphs(s, t)
  {
    hide WellFormed, Reference;
    PendingSameKeys(font, s, t);
  }

  lemma AlignedForOne(font: EpdFontData, s: seq<PageGlyphEntry>, groups: seq<nat>, g: nat)
    requires WellFormed(font) && IndicesValid(font, s) && AllAligned(font, s, groups) && g in groups
    ensures AllAligned(font, s, [g])
  {
    hide WellFormed, GroupIndex, AlignedRight;
  }

  lemma GroupDone(font: EpdFontData, was: seq<PageGlyphEntry>, now: seq<PageGlyphEntry>, groups: seq<nat>, g: nat)
    requires WellFormed(font) && IndicesValid(font, was) && AllAligned(font, was, groups) && Progressed(was, now)
    requires g < |groups| && groups[g] !in groups[..g] && Untouched(font, was, groups[..g])
    requires forall k :: 0 <= k < |now| && GroupIndex(font, now[k].glyphIndex) == groups[g] ==> Extracted(now[k])
    requires forall k :: 0 <= k < |now| && GroupIndex(font, now[k].glyphIndex) != groups[g] ==> now[k] == was[k]
    ensures IndicesValid(font, now) && AllAligned(font, now, groups)
    ensures LeftOut(font, now, groups[..g + 1]) == LeftOut(font, was, groups[..g])
    ensures Untouched(font, now, groups[..g + 1])
  {
    hide WellFormed, GroupIndex, LeftOut;
    LeftOutSame(font, was, now, groups[..g], groups[g]);
    LeftOutNext(font, now, groups, g);
    assert groups[..g + 1] == groups[..g] + [groups[g]];
  }

  lemma ExtractingEnds(inflate: seq<byte> -> seq<byte>, font: EpdFontData, buffer: seq<byte>,
                       s: seq<PageGlyphEntry>, writeOffset: nat)
    requires Extracting(inflate, font, buffer, s, writeOffset)
    ensures SlotContents(inflate, font, buffer, s)
  {
  }
}
