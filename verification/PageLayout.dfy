// Steps 3b and 4 of FontDecompressor::prewarmCache on one page slot: where each needed glyph
// sits inside its inflated group, and the extraction of the glyphs into the page buffer.
module PageLayout {
  import opened Wrappers
  import opened PixelPacking
  import opened FontData
  import opened PagePlan

  ghost predicate IndicesValid(font: EpdFontData, s: seq<PageGlyphEntry>) {
    forall k :: 0 <= k < |s| ==> s[k].glyphIndex < |font.glyph|
  }

  // ----- step 3b: aligned offsets -----

  // Only aligned offsets differ.
  ghost predicate SameKeys(s: seq<PageGlyphEntry>, t: seq<PageGlyphEntry>) {
    && |s| == |t|
    && forall k :: 0 <= k < |s| ==> s[k].glyphIndex == t[k].glyphIndex && s[k].bufferOffset == t[k].bufferOffset
  }

  ghost predicate AlignedRight(font: EpdFontData, e: PageGlyphEntry)
    requires WellFormed(font) && e.glyphIndex < |font.glyph|
  {
    e.alignedOffset == AlignedBefore(font, GroupIndex(font, e.glyphIndex), e.glyphIndex)
  }

  // Every entry of a listed group has its offset.
  ghost predicate AllAligned(font: EpdFontData, s: seq<PageGlyphEntry>, groups: seq<nat>)
    requires WellFormed(font) && IndicesValid(font, s)
  {
    forall k :: 0 <= k < |s| && GroupIndex(font, s[k].glyphIndex) in groups ==> AlignedRight(font, s[k])
  }

  // Every entry of group g below glyph n has its offset.
  ghost predicate AlignedBelow(font: EpdFontData, s: seq<PageGlyphEntry>, g: nat, n: nat)
    requires WellFormed(font) && IndicesValid(font, s)
  {
    forall k :: 0 <= k < |s| && GroupIndex(font, s[k].glyphIndex) == g && s[k].glyphIndex < n ==> AlignedRight(font, s[k])
  }

  // Every entry of a listed group below glyph n has its offset.
  ghost predicate AllAlignedBelow(font: EpdFontData, s: seq<PageGlyphEntry>, groups: seq<nat>, n: nat)
    requires WellFormed(font) && IndicesValid(font, s)
  {
    forall k :: 0 <= k < |s| && GroupIndex(font, s[k].glyphIndex) in groups && s[k].glyphIndex < n
                ==> AlignedRight(font, s[k])
  }

  // Stores an offset in the entry of a glyph, when the page needs that glyph.
  method SetAligned(entries: array<PageGlyphEntry>, glyphIndex: nat, offset: nat)
    requires SortedEntries(entries[..])
    modifies entries
    ensures SameKeys(old(entries[..]), entries[..])
    ensures forall k :: 0 <= k < entries.Length ==>
              entries[k].alignedOffset
              == if entries[k].glyphIndex == glyphIndex then offset else old(entries[k]).alignedOffset
  {
    var pos := FindEntry(entries, glyphIndex);
    if pos >= 0 {
      entries[pos] := entries[pos].(alignedOffset := offset);
      assert forall k :: 0 <= k < entries.Length && k != pos ==> old(entries[..])[k].glyphIndex != glyphIndex;
    }
  }

  lemma SameKeysSorted(s: seq<PageGlyphEntry>, t: seq<PageGlyphEntry>)
    requires SameKeys(s, t) && SortedEntries(s)
    ensures SortedEntries(t)
  {
  }

  // Frequency-grouped fonts: one pass over all glyphs with a running offset per needed group.
  method AlignMapped(font: EpdFontData, entries: array<PageGlyphEntry>, groups: array<nat>, groupCount: nat)
    requires WellFormed(font) && font.glyphToGroup.Some?
    requires SortedEntries(entries[..]) && IndicesValid(font, entries[..])
    requires groupCount <= groups.Length == MAX_NEEDED_GROUPS
    requires forall j, k :: 0 <= j < k < groupCount ==> groups[j] != groups[k]
    modifies entries
    ensures SameKeys(old(entries[..]), entries[..])
    ensures IndicesValid(font, entries[..]) && AllAligned(font, entries[..], groups[..groupCount])
  {
    hide GroupIndex, AlignedSize, WellFormed, SortedEntries;
    ghost var before := entries[..];
    var tracker := new nat[MAX_NEEDED_GROUPS](_ => 0);
    var totalGlyphs := |font.glyphToGroup.value|;
    MappedLength(font);
    var i := 0;
    while i < totalGlyphs
      invariant 0 <= i <= totalGlyphs && fresh(tracker)
      invariant SameKeys(before, entries[..]) && IndicesValid(font, entries[..])
      invariant forall j :: 0 <= j < groupCount ==> tracker[j] == AlignedBefore(font, groups[j], i)
      invariant AllAlignedBelow(font, entries[..], groups[..groupCount], i)
    {
      MappedGroup(font, i);
      var gi := font.glyphToGroup.value[i];
      var gpPos := Position(groups, groupCount, gi);
      ghost var was := entries[..];
      forall j | 0 <= j < groupCount
        ensures AlignedBefore(font, groups[j], i + 1)
             == AlignedBefore(font, groups[j], i) + if gi == groups[j] then AlignedSize(font.glyph[i]) else 0
      {
        AlignedStep(font, groups[j], i);
      }
      if gpPos < groupCount {
        SameKeysSorted(before, entries[..]);
        SetAligned(entries, i, tracker[gpPos]);
        tracker[gpPos] := AccumGlyph(tracker[gpPos], font.glyph[i]);
      }
      AlignedBelowStep(font, was, entries[..], groups[..groupCount], i);
      i := i + 1;
    }
  }

  lemma MappedLength(font: EpdFontData)
    requires WellFormed(font)
    ensures font.glyphToGroup.Some? ==> |font.glyphToGroup.value| == |font.glyph|
  {
  }

  // After glyph i: its entry, if its group is needed, carries the running offset of the group.
  lemma AlignedBelowStep(font: EpdFontData, was: seq<PageGlyphEntry>, now: seq<PageGlyphEntry>, groups: seq<nat>, i: nat)
    requires WellFormed(font) && i < |font.glyph| && IndicesValid(font, was) && SameKeys(was, now)
    requires AllAlignedBelow(font, was, groups, i)
    requires forall k :: 0 <= k < |now| ==>
               now[k].alignedOffset == if now[k].glyphIndex == i && GroupIndex(font, i) in groups
                                       then AlignedBefore(font, GroupIndex(font, i), i) else was[k].alignedOffset
    ensures IndicesValid(font, now) && AllAlignedBelow(font, now, groups, i + 1)
  {
    hide WellFormed, GroupIndex;
  }

  // The place of v among the first n elements, or n.
  method Position(a: array<nat>, n: nat, v: nat) returns (pos: nat)
    requires n <= a.Length
    ensures pos <= n && (pos < n ==> a[pos] == v)
    ensures pos == n <==> v !in a[..n]
  {
    pos := 0;
    while pos < n
      invariant 0 <= pos <= n && v !in a[..pos]
    {
      if a[pos] == v { return; }
      pos := pos + 1;
    }
  }

  // Contiguous groups: walk each needed group's own range.
  method AlignContiguous(font: EpdFontData, entries: array<PageGlyphEntry>, groups: array<nat>, groupCount: nat)
    requires WellFormed(font) && font.glyphToGroup.None?
    requires SortedEntries(entries[..]) && IndicesValid(font, entries[..])
    requires groupCount <= groups.Length
    requires forall j :: 0 <= j < groupCount ==> groups[j] < |font.groups|
    modifies entries
    ensures SameKeys(old(entries[..]), entries[..])
    ensures IndicesValid(font, entries[..]) && AllAligned(font, entries[..], groups[..groupCount])
  {
    hide GroupIndex, AlignedSize, WellFormed, SortedEntries;
    ghost var before := entries[..];
    for g := 0 to groupCount
      invariant SameKeys(before, entries[..]) && IndicesValid(font, entries[..])
      invariant AllAligned(font, entries[..], groups[..g])
    {
      SameKeysSorted(before, entries[..]);
      ghost var was := entries[..];
      AlignRange(font, entries, groups[g]);
      AlignedOneMore(font, was, entries[..], groups[..g], groups[g]);
      assert groups[..g] + [groups[g]] == groups[..g + 1];
    }
  }

  lemma AlignedOneMore(font: EpdFontData, was: seq<PageGlyphEntry>, now: seq<PageGlyphEntry>, groups: seq<nat>, g: nat)
    requires WellFormed(font) && IndicesValid(font, was) && SameKeys(was, now) && IndicesValid(font, now)
    requires AllAligned(font, was, groups) && AlignedBelow(font, now, g, |font.glyph|)
    requires forall k :: 0 <= k < |now| && GroupIndex(font, now[k].glyphIndex) != g ==> now[k] == was[k]
    ensures AllAligned(font, now, groups + [g])
  {
    hide WellFormed, GroupIndex;
  }

  // One group's range, with its running offset.
  method AlignRange(font: EpdFontData, entries: array<PageGlyphEntry>, g: nat)
    requires WellFormed(font) && font.glyphToGroup.None? && g < |font.groups|
    requires SortedEntries(entries[..]) && IndicesValid(font, entries[..])
    modifies entries
    ensures SameKeys(old(entries[..]), entries[..]) && IndicesValid(font, entries[..])
    ensures AlignedBelow(font, entries[..], g, |font.glyph|)
    ensures forall k :: 0 <= k < entries.Length && GroupIndex(font, entries[k].glyphIndex) != g ==> entries[k] == old(entries[k])
  {
    hide GroupIndex, AlignedSize, WellFormed, SortedEntries;
    ghost var before := entries[..];
    var group := font.groups[g];
    RangeInTable(font, g);
    NothingBeforeRange(font, g, group.firstGlyphIndex);
    var alignedOff := 0;
    RangeStart(font, entries[..], g);
    for j := 0 to group.glyphCount
      invariant SameKeys(before, entries[..]) && IndicesValid(font, entries[..])
      invariant alignedOff == AlignedBefore(font, g, group.firstGlyphIndex + j)
      invariant AlignedBelow(font, entries[..], g, group.firstGlyphIndex + j)
      invariant forall k :: 0 <= k < entries.Length && GroupIndex(font, entries[k].glyphIndex) != g
                            ==> entries[k] == before[k]
    {
      var glyphI := group.firstGlyphIndex + j;
      GroupMembership(font, glyphI, g);
      SameKeysSorted(before, entries[..]);
      SetAligned(entries, glyphI, alignedOff);
      AlignedStep(font, g, glyphI);
      alignedOff := AccumGlyph(alignedOff, font.glyph[glyphI]);
    }
    RangeEnd(font, entries[..], g);
  }

  lemma RangeInTable(font: EpdFontData, g: nat)
    requires WellFormed(font) && font.glyphToGroup.None? && g < |font.groups|
    ensures font.groups[g].firstGlyphIndex + font.groups[g].glyphCount <= |font.glyph|
  {
  }

  lemma RangeStart(font: EpdFontData, s: seq<PageGlyphEntry>, g: nat)
    requires WellFormed(font) && font.glyphToGroup.None? && g < |font.groups| && IndicesValid(font, s)
    ensures AlignedBelow(font, s, g, font.groups[g].firstGlyphIndex)
  {
    forall k | 0 <= k < |s| && GroupIndex(font, s[k].glyphIndex) == g
      ensures s[k].glyphIndex >= font.groups[g].firstGlyphIndex
    {
      GroupMembership(font, s[k].glyphIndex, g);
    }
  }

  lemma RangeEnd(font: EpdFontData, s: seq<PageGlyphEntry>, g: nat)
    requires WellFormed(font) && font.glyphToGroup.None? && g < |font.groups| && IndicesValid(font, s)
    requires AlignedBelow(font, s, g, font.groups[g].firstGlyphIndex + font.groups[g].glyphCount)
    ensures AlignedBelow(font, s, g, |font.glyph|)
  {
    forall k | 0 <= k < |s| && GroupIndex(font, s[k].glyphIndex) == g
      ensures AlignedRight(font, s[k])
    {
      GroupMembership(font, s[k].glyphIndex, g);
    }
  }

  // ----- step 4: extraction -----

  ghost predicate Extracted(e: PageGlyphEntry) {
    e.bufferOffset != UINT32_MAX
  }

  // An extracted entry points at the bitmap of its glyph.
  ghost predicate Served(inflate: seq<byte> -> seq<byte>, font: EpdFontData, buffer: seq<byte>, e: PageGlyphEntry)
    requires WellFormed(font) && e.glyphIndex < |font.glyph|
  {
    Extracted(e) ==>
      && e.bufferOffset + font.glyph[e.glyphIndex].dataLength <= |buffer|
      && Reference(inflate, font, e.glyphIndex)
         == Some(buffer[e.bufferOffset..e.bufferOffset + font.glyph[e.glyphIndex].dataLength])
  }

  // The regions of two extracted entries do not overlap.
  ghost predicate Apart(font: EpdFontData, e: PageGlyphEntry, f: PageGlyphEntry)
    requires e.glyphIndex < |font.glyph| && f.glyphIndex < |font.glyph|
  {
    Extracted(e) && Extracted(f) ==>
      || e.bufferOffset + font.glyph[e.glyphIndex].dataLength <= f.bufferOffset
      || f.bufferOffset + font.glyph[f.glyphIndex].dataLength <= e.bufferOffset
  }

  // What a page slot promises its readers.
  ghost predicate SlotContents(inflate: seq<byte> -> seq<byte>, font: EpdFontData, buffer: seq<byte>, s: seq<PageGlyphEntry>) {
    && WellFormed(font) && IndicesValid(font, s) && SortedEntries(s)
    && (forall k :: 0 <= k < |s| ==> Served(inflate, font, buffer, s[k]))
    && (forall j, k :: 0 <= j < k < |s| ==> Apart(font, s[j], s[k]))
  }

  // Extraction so far: extracted regions end at writeOffset, and the rest of the buffer is just
  // what the pending entries will take.
  ghost predicate Extracting(inflate: seq<byte> -> seq<byte>, font: EpdFontData, buffer: seq<byte>,
                             s: seq<PageGlyphEntry>, writeOffset: nat) {
    && SlotContents(inflate, font, buffer, s)
    && (forall k :: 0 <= k < |s| && Extracted(s[k]) ==>
          s[k].bufferOffset + font.glyph[s[k].glyphIndex].dataLength <= writeOffset)
    && writeOffset + Pending(font, s) == |buffer| < UINT32_MAX
  }

  lemma {:induction false} PendingPoint(font: EpdFontData, s: seq<PageGlyphEntry>, i: nat, e: PageGlyphEntry)
    requires i < |s| && IndicesValid(font, s) && e.glyphIndex < |font.glyph|
    ensures IndicesValid(font, s[i := e])
    ensures Pending(font, s[i := e]) + PendingEntry(font, s[i]) == Pending(font, s) + PendingEntry(font, e)
  {
    hide PendingEntry;
    var t := s[i := e];
    if i == |s| - 1 {
      assert t[..|t| - 1] == s[..|s| - 1];
    } else {
      PendingPoint(font, s[..|s| - 1], i, e);
      assert t[..|t| - 1] == s[..|s| - 1][i := e];
    }
  }

  lemma {:induction false} PendingCovers(font: EpdFontData, s: seq<PageGlyphEntry>, i: nat)
    requires i < |s| && IndicesValid(font, s)
    ensures PendingEntry(font, s[i]) <= Pending(font, s)
  {
    if i < |s| - 1 {
      PendingCovers(font, s[..|s| - 1], i);
    }
  }

  // Writing past writeOffset disturbs nothing already extracted.
  lemma ServedFramed(inflate: seq<byte> -> seq<byte>, font: EpdFontData, buffer: seq<byte>, writeOffset: nat,
                     bytes: seq<byte>, e: PageGlyphEntry)
    requires WellFormed(font) && e.glyphIndex < |font.glyph| && Served(inflate, font, buffer, e)
    requires Extracted(e) ==> e.bufferOffset + font.glyph[e.glyphIndex].dataLength <= writeOffset
    requires writeOffset + |bytes| <= |buffer|
    ensures Served(inflate, font, Spliced(buffer, writeOffset, bytes), e)
  {
    hide WellFormed, Reference;
    if Extracted(e) {
      var after := e.bufferOffset + font.glyph[e.glyphIndex].dataLength;
      assert Spliced(buffer, writeOffset, bytes)[e.bufferOffset..after] == buffer[e.bufferOffset..after];
    }
  }

  // Extracting entry i: its bitmap goes to writeOffset.
  lemma ExtractStep(inflate: seq<byte> -> seq<byte>, font: EpdFontData, buffer: seq<byte>, s: seq<PageGlyphEntry>,
                    writeOffset: nat, i: nat, bytes: seq<byte>)
    requires Extracting(inflate, font, buffer, s, writeOffset) && i < |s| && !Extracted(s[i])
    requires Reference(inflate, font, s[i].glyphIndex) == Some(bytes)
    ensures writeOffset + |bytes| <= |buffer| < UINT32_MAX && |bytes| == font.glyph[s[i].glyphIndex].dataLength
    ensures Extracting(inflate, font, Spliced(buffer, writeOffset, bytes), s[i := s[i].(bufferOffset := writeOffset)],
                       writeOffset + |bytes|)
  {
    hide WellFormed, Reference;
    ReferenceLength(inflate, font, s[i].glyphIndex);
    PendingCovers(font, s, i);
    var e := s[i].(bufferOffset := writeOffset);
    var t := s[i := e];
    var after := Spliced(buffer, writeOffset, bytes);
    PendingPoint(font, s, i, e);
    assert after[writeOffset..writeOffset + |bytes|] == bytes;
    forall k | 0 <= k < |t| ensures Served(inflate, font, after, t[k]) {
      if k != i {
        ServedFramed(inflate, font, buffer, writeOffset, bytes, s[k]);
      }
    }
  }

  lemma ReferenceLength(inflate: seq<byte> -> seq<byte>, font: EpdFontData, i: nat)
    requires WellFormed(font) && i < |font.glyph|
    ensures Reference(inflate, font, i).Some? ==> |Reference(inflate, font, i).value| == font.glyph[i].dataLength
  {
  }

  // FontDecompressor::decompressGroup: on failure the output buffer holds whatever was produced.
  method DecompressGroup(inflate: seq<byte> -> seq<byte>, font: EpdFontData, g: nat, outBuf: array<byte>)
    returns (ok: bool)
    requires g < |font.groups| && font.groups[g].compressedOffset + font.groups[g].compressedSize <= |font.bitmap|
    requires outBuf.Length == font.groups[g].uncompressedSize
    modifies outBuf
    ensures ok <==> InflateGroup(inflate, font, g).Some?
    ensures ok ==> outBuf[..] == InflateGroup(inflate, font, g).value
  {
    var group := font.groups[g];
    var output := inflate(font.bitmap[group.compressedOffset..group.compressedOffset + group.compressedSize]);
    ok := |output| >= outBuf.Length;
    forall i | 0 <= i < outBuf.Length && i < |output| {
      outBuf[i] := output[i];
    }
  }

  // Extracts the pending glyphs of one inflated group.
  method ExtractGroup(inflate: seq<byte> -> seq<byte>, font: EpdFontData, g: nat, temp: array<byte>,
                      buffer: array<byte>, entries: array<PageGlyphEntry>, writeOffset0: nat)
    returns (writeOffset: nat)
    requires temp != buffer && WellFormed(font) && g < |font.groups| && GroupFits(font, g)
    requires InflateGroup(inflate, font, g) == Some(temp[..])
    requires Extracting(inflate, font, buffer[..], entries[..], writeOffset0)
    requires AllAligned(font, entries[..], [g])
    modifies buffer, entries
    ensures Extracting(inflate, font, buffer[..], entries[..], writeOffset)
    ensures Progressed(old(entries[..]), entries[..])
    ensures forall k :: 0 <= k < entries.Length && GroupIndex(font, entries[k].glyphIndex) == g ==> Extracted(entries[k])
    ensures forall k :: 0 <= k < entries.Length && GroupIndex(font, entries[k].glyphIndex) != g ==> entries[k] == old(entries[k])
  {
    hide WellFormed, Reference, Extracting, AllAligned, Packed, AlignedLength, PackedLength, AlignedSize, GroupIndex;
    writeOffset := writeOffset0;
    ghost var before := entries[..];
    MappedLength(font);
    ExtractingIndices(inflate, font, buffer[..], before, writeOffset);
    for i := 0 to entries.Length
      invariant temp[..] == old(temp[..])
      invariant Extracting(inflate, font, buffer[..], entries[..], writeOffset)
      invariant Progressed(before, entries[..]) && entries[i..] == before[i..]
      invariant IndicesValid(font, before)
      invariant forall k :: 0 <= k < i && GroupIndex(font, before[k].glyphIndex) == g ==> Extracted(entries[k])
      invariant forall k :: 0 <= k < i && GroupIndex(font, before[k].glyphIndex) != g ==> entries[k] == before[k]
    {
      assert entries[i] == entries[i..][0];
      if entries[i].bufferOffset != UINT32_MAX { continue; }
      var gi := GetGroupIndex(font, entries[i].glyphIndex);
      if gi != g { continue; }
      var glyph := font.glyph[entries[i].glyphIndex];
      CutFrom(inflate, font, g, temp[..], before, i);
      ghost var bytes := CutGlyph(font, temp[..], entries[i].glyphIndex);
      ExtractStep(inflate, font, buffer[..], entries[..], writeOffset, i, bytes);
      CompactSingleGlyph(temp, entries[i].alignedOffset, buffer, writeOffset, glyph.width, glyph.height);
      entries[i] := entries[i].(bufferOffset := writeOffset);
      writeOffset := writeOffset + glyph.dataLength;
    }
  }

  lemma ExtractingIndices(inflate: seq<byte> -> seq<byte>, font: EpdFontData, buffer: seq<byte>,
                          s: seq<PageGlyphEntry>, writeOffset: nat)
    requires Extracting(inflate, font, buffer, s, writeOffset)
    ensures IndicesValid(font, s)
  {
  }

  // Indices stay, and what was extracted stays extracted where it was.
  ghost predicate Progressed(s: seq<PageGlyphEntry>, t: seq<PageGlyphEntry>) {
    && |s| == |t|
    && forall k :: 0 <= k < |s| ==> t[k].glyphIndex == s[k].glyphIndex && t[k].alignedOffset == s[k].alignedOffset
                                    && (Extracted(s[k]) ==> t[k] == s[k])
  }

  // The precomputed offset is where the reference cuts.
  lemma CutFrom(inflate: seq<byte> -> seq<byte>, font: EpdFontData, g: nat, data: seq<byte>, s: seq<PageGlyphEntry>, i: nat)
    requires WellFormed(font) && g < |font.groups| && GroupFits(font, g) && IndicesValid(font, s)
    requires InflateGroup(inflate, font, g) == Some(data) && i < |s|
    requires AllAligned(font, s, [g]) && GroupIndex(font, s[i].glyphIndex) == g
    ensures var glyph := font.glyph[s[i].glyphIndex];
            && s[i].alignedOffset + AlignedLength(glyph.width, glyph.height) <= |data|
            && glyph.dataLength == PackedLength(glyph.width, glyph.height)
            && Reference(inflate, font, s[i].glyphIndex) == Some(CutGlyph(font, data, s[i].glyphIndex))
            && CutGlyph(font, data, s[i].glyphIndex)
               == Packed(data[s[i].alignedOffset..s[i].alignedOffset + AlignedLength(glyph.width, glyph.height)],
                         glyph.width, glyph.height)
  {
    hide Packed, PackedLength, AlignedLength;
    GlyphRegionInGroup(font, s[i].glyphIndex);
    assert AlignedRight(font, s[i]);
  }
}
