// Font tables (lib/EpdFont/EpdFontData.h) and the lookups of lib/EpdFont/FontDecompressor.cpp
// that read them without changing anything.
module FontData {
  import opened Wrappers
  import opened PixelPacking

  datatype Glyph = Glyph(width: byte, height: byte, advanceX: nat, left: int, top: int,
                         dataLength: nat, dataOffset: nat)
  datatype Group = Group(compressedOffset: nat, compressedSize: nat, uncompressedSize: nat,
                         glyphCount: nat, firstGlyphIndex: nat)
  datatype Interval = Interval(first: nat, last: nat, offset: nat)
  datatype LigaturePair = LigaturePair(pair: nat, ligatureCp: nat)

  datatype KernClassEntry = KernClassEntry(codepoint: nat, classId: nat)
  datatype KernTable = KernTable(leftClasses: seq<KernClassEntry>, rightClasses: seq<KernClassEntry>,
                                 matrix: seq<int>, leftClassCount: nat, rightClassCount: nat)

  // A font lives in flash and never changes; the cache recognises it by its address.
  // An empty sequence stands for a null table.
  class EpdFontData {
    const bitmap: seq<byte>
    const glyph: seq<Glyph>
    const intervals: seq<Interval>
    const groups: seq<Group>
    const glyphToGroup: Option<seq<nat>>
    const ligaturePairs: seq<LigaturePair>
    const kern: KernTable
    const glyphMissHandler: Option<nat -> Option<Glyph>>

    constructor (bitmap: seq<byte>, glyph: seq<Glyph>, intervals: seq<Interval>, groups: seq<Group>,
                 glyphToGroup: Option<seq<nat>>, ligaturePairs: seq<LigaturePair>, kern: KernTable,
                 glyphMissHandler: Option<nat -> Option<Glyph>>)
      ensures this.bitmap == bitmap && this.glyph == glyph && this.intervals == intervals
      ensures this.groups == groups && this.glyphToGroup == glyphToGroup && this.ligaturePairs == ligaturePairs
      ensures this.kern == kern && this.glyphMissHandler == glyphMissHandler
    {
      this.bitmap := bitmap;
      this.glyph := glyph;
      this.intervals := intervals;
      this.groups := groups;
      this.glyphToGroup := glyphToGroup;
      this.ligaturePairs := ligaturePairs;
      this.kern := kern;
      this.glyphMissHandler := glyphMissHandler;
    }
  }

  // ----- codepoint to glyph index -----

  // The glyph index of a codepoint, or -1: scan the intervals.
  function GlyphIndexOf(intervals: seq<Interval>, cp: nat): (r: int)
    ensures r >= -1
  {
    if intervals == [] then -1
    else if intervals[0].first <= cp <= intervals[0].last then intervals[0].offset + (cp - intervals[0].first)
    else GlyphIndexOf(intervals[1..], cp)
  }

  ghost predicate SortedIntervals(intervals: seq<Interval>) {
    && (forall k :: 0 <= k < |intervals| ==> intervals[k].first <= intervals[k].last)
    && (forall j, k :: 0 <= j < k < |intervals| ==> intervals[j].last < intervals[k].first)
  }

  function IntervalEnd(interval: Interval): int {
    interval.offset + (interval.last - interval.first + 1)
  }

  // The intervals number n glyphs consecutively, in order.
  ghost predicate Enumerates(intervals: seq<Interval>, n: nat) {
    && SortedIntervals(intervals)
    && (intervals == [] ==> n == 0)
    && (intervals != [] ==> intervals[0].offset == 0 && IntervalEnd(intervals[|intervals| - 1]) == n)
    && (forall k :: 0 < k < |intervals| ==> intervals[k].offset == IntervalEnd(intervals[k - 1]))
  }

  // For example, A and B are glyphs 0 and 1 and F is glyph 2 of three.
  lemma EnumeratesExample()
    ensures Enumerates([Interval(65, 66, 0), Interval(70, 70, 2)], 3)
    ensures GlyphIndexOf([Interval(65, 66, 0), Interval(70, 70, 2)], 66) == 1
    ensures GlyphIndexOf([Interval(65, 66, 0), Interval(70, 70, 2)], 70) == 2
    ensures GlyphIndexOf([Interval(65, 66, 0), Interval(70, 70, 2)], 69) == -1
  {
    var intervals := [Interval(65, 66, 0), Interval(70, 70, 2)];
    GlyphIndexInInterval(intervals, 66, 0);
    GlyphIndexInInterval(intervals, 70, 1);
    GlyphIndexOutside(intervals, 69);
  }

  lemma {:induction false} GlyphIndexInInterval(intervals: seq<Interval>, cp: nat, k: nat)
    requires SortedIntervals(intervals) && k < |intervals| && intervals[k].first <= cp <= intervals[k].last
    ensures GlyphIndexOf(intervals, cp) == intervals[k].offset + (cp - intervals[k].first)
  {
    if k > 0 {
      assert intervals[0].last < intervals[k].first;
      GlyphIndexInInterval(intervals[1..], cp, k - 1);
    }
  }

  lemma {:induction false} GlyphIndexOutside(intervals: seq<Interval>, cp: nat)
    requires forall k :: 0 <= k < |intervals| ==> !(intervals[k].first <= cp <= intervals[k].last)
    ensures GlyphIndexOf(intervals, cp) == -1
  {
    if intervals != [] {
      GlyphIndexOutside(intervals[1..], cp);
    }
  }

  lemma {:induction false} OffsetsGrow(intervals: seq<Interval>, n: nat, j: nat, k: nat)
    requires Enumerates(intervals, n) && j <= k < |intervals|
    ensures IntervalEnd(intervals[j]) <= IntervalEnd(intervals[k])
    ensures j < k ==> IntervalEnd(intervals[j]) <= intervals[k].offset
    decreases k - j
  {
    if j < k {
      OffsetsGrow(intervals, n, j, k - 1);
    }
  }

  // An index that the intervals yield is an index into the glyph table, and it identifies the codepoint.
  lemma GlyphIndexValid(intervals: seq<Interval>, n: nat, cp: nat)
    requires Enumerates(intervals, n)
    ensures GlyphIndexOf(intervals, cp) < n || GlyphIndexOf(intervals, cp) == -1
  {
    if k: nat :| k < |intervals| && intervals[k].first <= cp <= intervals[k].last {
      GlyphIndexInInterval(intervals, cp, k);
      OffsetsGrow(intervals, n, k, |intervals| - 1);
    } else {
      GlyphIndexOutside(intervals, cp);
    }
  }

  lemma GlyphIndexInjective(intervals: seq<Interval>, n: nat, cp: nat, other: nat)
    requires Enumerates(intervals, n)
    requires GlyphIndexOf(intervals, cp) == GlyphIndexOf(intervals, other) >= 0
    ensures cp == other
  {
    if k: nat :| k < |intervals| && intervals[k].first <= cp <= intervals[k].last {
      GlyphIndexInInterval(intervals, cp, k);
      if j: nat :| j < |intervals| && intervals[j].first <= other <= intervals[j].last {
        GlyphIndexInInterval(intervals, other, j);
        if j < k { OffsetsGrow(intervals, n, j, k); }
        if k < j { OffsetsGrow(intervals, n, k, j); }
      } else {
        GlyphIndexOutside(intervals, other);
      }
    } else {
      GlyphIndexOutside(intervals, cp);
    }
  }

  // FontDecompressor::findGlyphIndex: binary search over the intervals.
  method FindGlyphIndex(font: EpdFontData, codepoint: nat) returns (r: int)
    requires SortedIntervals(font.intervals)
    ensures r == GlyphIndexOf(font.intervals, codepoint)
  {
    var intervals := font.intervals;
    var left, right := 0, |intervals| - 1;
    while left <= right
      invariant 0 <= left <= right + 1 <= |intervals|
      invariant forall k :: 0 <= k < left ==> intervals[k].last < codepoint
      invariant forall k :: right < k < |intervals| ==> codepoint < intervals[k].first
    {
      var mid := left + (right - left) / 2;
      var interval := intervals[mid];
      if codepoint < interval.first {
        right := mid - 1;
      } else if codepoint > interval.last {
        left := mid + 1;
      } else {
        GlyphIndexInInterval(intervals, codepoint, mid);
        return interval.offset + (codepoint - interval.first);
      }
    }
    GlyphIndexOutside(intervals, codepoint);
    return -1;
  }

  // ----- glyph index to group -----

  // The first group from k on whose range holds glyph i, or the number of groups.
  function FirstGroupFrom(groups: seq<Group>, i: nat, k: nat): (g: nat)
    requires k <= |groups|
    ensures k <= g <= |groups|
    decreases |groups| - k
  {
    if k == |groups| then k
    else if groups[k].firstGlyphIndex <= i < groups[k].firstGlyphIndex + groups[k].glyphCount then k
    else FirstGroupFrom(groups, i, k + 1)
  }

  // At least the first glyph of the group, and fewer than all its glyphs after it.
  predicate RangeHolds(group: Group, i: nat) {
    group.firstGlyphIndex <= i && i - group.firstGlyphIndex < group.glyphCount
  }

  // The group found is the first one whose range holds the glyph.
  lemma {:induction false} FirstGroupExact(groups: seq<Group>, i: nat, k: nat)
    requires k <= |groups|
    ensures var g := FirstGroupFrom(groups, i, k);
            (g < |groups| ==> RangeHolds(groups[g], i)) && forall h :: k <= h < g ==> !RangeHolds(groups[h], i)
    decreases |groups| - k
  {
    if k < |groups| {
      FirstGroupExact(groups, i, k + 1);
    }
  }

  // FontDecompressor::getGroupIndex: the mapping table when there is one, the first range otherwise.
  function GroupIndex(font: EpdFontData, i: nat): nat
    requires font.glyphToGroup.Some? ==> i < |font.glyphToGroup.value|
  {
    if font.glyphToGroup.Some? then font.glyphToGroup.value[i] else FirstGroupFrom(font.groups, i, 0)
  }

  method GetGroupIndex(font: EpdFontData, glyphIndex: nat) returns (g: nat)
    requires font.glyphToGroup.Some? ==> glyphIndex < |font.glyphToGroup.value|
    ensures g == GroupIndex(font, glyphIndex)
  {
    if font.glyphToGroup.Some? {
      return font.glyphToGroup.value[glyphIndex];
    }
    var i := 0;
    while i < |font.groups|
      invariant 0 <= i <= |font.groups|
      invariant FirstGroupFrom(font.groups, glyphIndex, 0) == FirstGroupFrom(font.groups, glyphIndex, i)
    {
      var first := font.groups[i].firstGlyphIndex;
      if glyphIndex >= first && glyphIndex < first + font.groups[i].glyphCount {
        return i;
      }
      i := i + 1;
    }
    return |font.groups|;
  }

  // Glyph i is a member of group g.
  ghost predicate InGroup(font: EpdFontData, i: nat, g: nat)
    requires g < |font.groups| && (font.glyphToGroup.Some? ==> i < |font.glyphToGroup.value|)
  {
    if font.glyphToGroup.Some? then font.glyphToGroup.value[i] == g
    else font.groups[g].firstGlyphIndex <= i < font.groups[g].firstGlyphIndex + font.groups[g].glyphCount
  }

  function AlignedSize(g: Glyph): nat {
    AlignedLength(g.width, g.height)
  }

  function PackedSize(g: Glyph): nat {
    PackedLength(g.width, g.height)
  }

  // Row-aligned bytes of the glyphs below n that belong to group g.
  function AlignedBefore(font: EpdFontData, g: nat, n: nat): nat
    requires n <= |font.glyph| && (font.glyphToGroup.Some? ==> n <= |font.glyphToGroup.value|)
  {
    if n == 0 then 0
    else AlignedBefore(font, g, n - 1) + if GroupIndex(font, n - 1) == g then AlignedSize(font.glyph[n - 1]) else 0
  }

  // What the generator guarantees of a compressed font.
  ghost predicate WellFormed(font: EpdFontData) {
    && font.groups != []
    && |font.glyph| < 0x8000_0000
    && Enumerates(font.intervals, |font.glyph|)
    && (font.glyphToGroup.Some? ==> |font.glyphToGroup.value| == |font.glyph|)
    // every glyph is in exactly one group
    && (forall i :: 0 <= i < |font.glyph| ==> GroupIndex(font, i) < |font.groups|)
    && (forall i, g :: 0 <= i < |font.glyph| && 0 <= g < |font.groups| && InGroup(font, i, g) ==> g == GroupIndex(font, i))
    // a group's range lies within the glyph table
    && (forall g :: 0 <= g < |font.groups| && font.glyphToGroup.None? ==>
          font.groups[g].firstGlyphIndex + font.groups[g].glyphCount <= |font.glyph|)
    // packed bitmaps hold two bits a pixel, and a group holds its glyphs back to back
    && (forall i :: 0 <= i < |font.glyph| ==> font.glyph[i].dataLength == PackedSize(font.glyph[i]) <= 0xFFFF)
    && (forall g :: 0 <= g < |font.groups| ==> GroupFits(font, g))
  }

  ghost predicate GroupFits(font: EpdFontData, g: nat)
    requires g < |font.groups| && (font.glyphToGroup.Some? ==> |font.glyphToGroup.value| == |font.glyph|)
  {
    && font.groups[g].compressedOffset + font.groups[g].compressedSize <= |font.bitmap|
    && AlignedBefore(font, g, |font.glyph|) <= font.groups[g].uncompressedSize
  }

  lemma {:induction false} FirstGroupHolds(groups: seq<Group>, i: nat, k: nat)
    requires k <= |groups|
    ensures var g := FirstGroupFrom(groups, i, k);
            g < |groups| ==> groups[g].firstGlyphIndex <= i < groups[g].firstGlyphIndex + groups[g].glyphCount
    decreases |groups| - k
  {
    if k < |groups| {
      FirstGroupHolds(groups, i, k + 1);
    }
  }

  // The computed group is the group: membership and GroupIndex agree.
  lemma GroupMembership(font: EpdFontData, i: nat, g: nat)
    requires WellFormed(font) && i < |font.glyph| && g < |font.groups|
    ensures InGroup(font, i, g) <==> GroupIndex(font, i) == g
  {
    FirstGroupHolds(font.groups, i, 0);
  }

  lemma {:induction false} AlignedBeforeGrows(font: EpdFontData, g: nat, m: nat, n: nat)
    requires WellFormed(font) && m <= n <= |font.glyph|
    ensures AlignedBefore(font, g, m) <= AlignedBefore(font, g, n)
    decreases n
  {
    if m < n {
      AlignedBeforeGrows(font, g, m, n - 1);
    }
  }

  lemma AlignedStep(font: EpdFontData, g: nat, i: nat)
    requires i < |font.glyph| && (font.glyphToGroup.Some? ==> i < |font.glyphToGroup.value|)
    ensures AlignedBefore(font, g, i + 1)
         == AlignedBefore(font, g, i) + if GroupIndex(font, i) == g then AlignedSize(font.glyph[i]) else 0
  {
  }

  // A glyph's row-aligned bytes lie inside its group, clear of those of every later member.
  lemma GlyphRegionInGroup(font: EpdFontData, i: nat)
    requires WellFormed(font) && i < |font.glyph|
    ensures var g := GroupIndex(font, i);
            && AlignedBefore(font, g, i) + AlignedSize(font.glyph[i]) <= font.groups[g].uncompressedSize
            && forall j :: i < j < |font.glyph| ==>
                 AlignedBefore(font, g, i) + AlignedSize(font.glyph[i]) <= AlignedBefore(font, g, j)
  {
    hide AlignedSize, GroupIndex, AlignedBefore, Enumerates;
    var g := GroupIndex(font, i);
    assert GroupFits(font, g);
    AlignedStep(font, g, i);
    AlignedBeforeGrows(font, g, i + 1, |font.glyph|);
    forall j | i < j < |font.glyph|
      ensures AlignedBefore(font, g, i) + AlignedSize(font.glyph[i]) <= AlignedBefore(font, g, j)
    {
      AlignedBeforeGrows(font, g, i + 1, j);
    }
  }

  // In a font with contiguous groups nothing before the range counts, and everything inside it does.
  lemma {:induction false} NothingBeforeRange(font: EpdFontData, g: nat, n: nat)
    requires WellFormed(font) && font.glyphToGroup.None? && g < |font.groups|
    requires n <= font.groups[g].firstGlyphIndex && n <= |font.glyph|
    ensures AlignedBefore(font, g, n) == 0
  {
    if n > 0 {
      NothingBeforeRange(font, g, n - 1);
      GroupMembership(font, n - 1, g);
    }
  }

  // FontDecompressor::getAlignedOffset: the offset of a glyph of the group inside the inflated group.
  method GetAlignedOffset(font: EpdFontData, groupIndex: nat, glyphIndex: nat) returns (offset: nat)
    requires WellFormed(font) && glyphIndex < |font.glyph| && groupIndex == GroupIndex(font, glyphIndex)
    ensures offset == AlignedBefore(font, groupIndex, glyphIndex)
  {
    hide AlignedSize, GroupIndex;
    offset := 0;
    if font.glyphToGroup.Some? {
      for i := 0 to glyphIndex
        invariant offset == AlignedBefore(font, groupIndex, i)
      {
        MappedGroup(font, i);
        if font.glyphToGroup.value[i] == groupIndex {
          offset := AccumGlyph(offset, font.glyph[i]);
        }
      }
    } else {
      GroupMembership(font, glyphIndex, groupIndex);
      var first := font.groups[groupIndex].firstGlyphIndex;
      NothingBeforeRange(font, groupIndex, first);
      for i := first to glyphIndex
        invariant offset == AlignedBefore(font, groupIndex, i)
      {
        GroupMembership(font, i, groupIndex);
        offset := AccumGlyph(offset, font.glyph[i]);
      }
    }
  }

  lemma MappedGroup(font: EpdFontData, i: nat)
    requires font.glyphToGroup.Some? && i < |font.glyphToGroup.value|
    ensures GroupIndex(font, i) == font.glyphToGroup.value[i]
  {
  }

  // Advances a running offset past one glyph; glyphs without pixels take no room.
  function AccumGlyph(offset: nat, g: Glyph): (r: nat)
    ensures r == offset + AlignedSize(g)
  {
    if g.width > 0 && g.height > 0 then offset + (g.width + 3) / 4 * g.height else offset
  }

  // ----- the reference definition of a glyph bitmap -----

  // Inflating a group: the decompressor yields bytes until its stream ends or breaks, and the
  // read succeeds when it yields as many as the group is declared to hold.
  function InflateGroup(inflate: seq<byte> -> seq<byte>, font: EpdFontData, g: nat): (r: Option<seq<byte>>)
    requires g < |font.groups| && font.groups[g].compressedOffset + font.groups[g].compressedSize <= |font.bitmap|
    ensures r.Some? ==> |r.value| == font.groups[g].uncompressedSize
  {
    var group := font.groups[g];
    var output := inflate(font.bitmap[group.compressedOffset..group.compressedOffset + group.compressedSize]);
    if |output| >= group.uncompressedSize then Some(output[..group.uncompressedSize]) else None
  }

  // A stream of the declared length is the group, a longer one is cut off, a shorter one is no group.
  lemma InflateExact(inflate: seq<byte> -> seq<byte>, font: EpdFontData, g: nat, before: seq<byte>, compressed: seq<byte>,
                     after: seq<byte>)
    requires g < |font.groups| && font.bitmap == before + compressed + after
    requires font.groups[g].compressedOffset == |before| && font.groups[g].compressedSize == |compressed|
    ensures var output, size := inflate(compressed), font.groups[g].uncompressedSize;
            && (|output| == size ==> InflateGroup(inflate, font, g) == Some(output))
            && (|output| > size ==> InflateGroup(inflate, font, g) == Some(output[..size]))
            && (|output| < size ==> InflateGroup(inflate, font, g) == None)
  {
    assert font.bitmap[|before|..|before| + |compressed|] == compressed;
    var output := inflate(compressed);
    assert output[..|output|] == output;
  }

  // The packed form of glyph i cut from an inflated group.
  function CutGlyph(font: EpdFontData, data: seq<byte>, i: nat): (r: seq<byte>)
    requires WellFormed(font) && i < |font.glyph|
    requires |data| == font.groups[GroupIndex(font, i)].uncompressedSize
    ensures |r| == font.glyph[i].dataLength
  {
    GlyphRegionInGroup(font, i);
    var offset := AlignedBefore(font, GroupIndex(font, i), i);
    Packed(data[offset..offset + AlignedSize(font.glyph[i])], font.glyph[i].width, font.glyph[i].height)
  }

  // The bitmap of glyph i: inflate its group afresh, find its rows, pack its pixels.
  function Reference(inflate: seq<byte> -> seq<byte>, font: EpdFontData, i: nat): (r: Option<seq<byte>>)
    requires WellFormed(font) && i < |font.glyph|
    ensures r.Some? ==> |r.value| == font.glyph[i].dataLength
  {
    var g := GroupIndex(font, i);
    assert GroupFits(font, g);
    match InflateGroup(inflate, font, g)
    case None => None
    case Some(data) => Some(CutGlyph(font, data, i))
  }

  // Reference in terms of the pixels of the inflated group.
  lemma ReferencePixels(inflate: seq<byte> -> seq<byte>, font: EpdFontData, i: nat, y: nat, x: nat)
    requires WellFormed(font) && i < |font.glyph| && Reference(inflate, font, i).Some?
    requires y < font.glyph[i].height && x < font.glyph[i].width
    ensures var g, glyph := GroupIndex(font, i), font.glyph[i];
            && GroupFits(font, g) && InflateGroup(inflate, font, g).Some?
            && AlignedBefore(font, g, i) + AlignedSize(glyph) <= font.groups[g].uncompressedSize
            && 0 <= y * glyph.width + x < glyph.width * glyph.height
            && PixelAt(Reference(inflate, font, i).value, y * glyph.width + x)
            == AlignedPixel(InflateGroup(inflate, font, g).value[AlignedBefore(font, g, i)..][..AlignedSize(glyph)],
                            glyph.width, glyph.height, y, x)
  {
    hide Packed, AlignedLength, PackedLength;
    var g, glyph := GroupIndex(font, i), font.glyph[i];
    GlyphRegionInGroup(font, i);
    assert GroupFits(font, g);
    var data := InflateGroup(inflate, font, g).value;
    var offset := AlignedBefore(font, g, i);
    assert data[offset..][..AlignedSize(glyph)] == data[offset..offset + AlignedSize(glyph)];
    PackingPreservesPixels(data[offset..offset + AlignedSize(glyph)], glyph.width, glyph.height, y, x);
  }
}
