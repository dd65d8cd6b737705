// EpdFont (lib/EpdFont/EpdFont.cpp): glyph, kerning and ligature lookups, and text bounds.
module TextMeasure {
  import opened Wrappers
  import opened FontData
  import opened FontMetrics

  const REPLACEMENT_GLYPH := 0xFFFD

  // A C string as its codepoints: none of them is zero.
  type codepoint = c: int | c > 0 witness 1

  // Build-time script support: the Simplified/Traditional remapping and the CJK test.
  datatype Script = Script(resolve: nat -> nat, isCjkBreakable: nat -> bool)

  // ----- sorted-table lookups -----

  ghost predicate Increasing(keys: seq<nat>) {
    forall j, k :: 0 <= j < k < |keys| ==> keys[j] < keys[k]
  }

  // std::lower_bound on [lo, hi): halving search for the first key not below the target.
  function LowerBound(keys: seq<nat>, target: nat, lo: nat, hi: nat): (r: nat)
    requires lo <= hi <= |keys|
    ensures lo <= r <= hi
    decreases hi - lo
  {
    if lo == hi then lo
    else
      var mid := (lo + hi) / 2;
      if keys[mid] < target then LowerBound(keys, target, mid + 1, hi) else LowerBound(keys, target, lo, mid)
  }

  lemma {:induction false} LowerBoundSplits(keys: seq<nat>, target: nat, lo: nat, hi: nat)
    requires lo <= hi <= |keys| && Increasing(keys)
    ensures var r := LowerBound(keys, target, lo, hi);
            && (forall k :: lo <= k < r ==> keys[k] < target)
            && (forall k :: r <= k < hi ==> keys[k] >= target)
    decreases hi - lo
  {
    if lo < hi {
      var mid := (lo + hi) / 2;
      if keys[mid] < target {
        LowerBoundSplits(keys, target, mid + 1, hi);
      } else {
        LowerBoundSplits(keys, target, lo, mid);
      }
    }
  }

  // The place of a key, when the table has it.
  function FindKey(keys: seq<nat>, target: nat): (r: Option<nat>)
    ensures r.Some? ==> r.value < |keys| && keys[r.value] == target
  {
    var it := LowerBound(keys, target, 0, |keys|);
    if it < |keys| && keys[it] == target then Some(it) else None
  }

  lemma FindKeyExact(keys: seq<nat>, target: nat)
    requires Increasing(keys)
    ensures FindKey(keys, target).None? <==> target !in keys
    ensures forall k :: 0 <= k < |keys| && keys[k] == target ==> FindKey(keys, target) == Some(k)
  {
    LowerBoundSplits(keys, target, 0, |keys|);
  }

  function Codepoints(entries: seq<KernClassEntry>): (r: seq<nat>)
    ensures |r| == |entries|
  {
    seq(|entries|, k requires 0 <= k < |entries| => entries[k].codepoint)
  }

  function LookupKernClass(entries: seq<KernClassEntry>, cp: nat): nat {
    if entries == [] || cp > 0xFFFF then 0
    else
      var it := FindKey(Codepoints(entries), cp);
      if it.Some? then entries[it.value].classId else 0
  }

  // On a sorted class table a listed codepoint gets its class, and no other codepoint gets one.
  lemma KernClassExact(entries: seq<KernClassEntry>, cp: nat)
    requires Increasing(Codepoints(entries)) && cp <= 0xFFFF
    ensures forall k :: 0 <= k < |entries| && entries[k].codepoint == cp ==> LookupKernClass(entries, cp) == entries[k].classId
    ensures (forall k :: 0 <= k < |entries| ==> entries[k].codepoint != cp) ==> LookupKernClass(entries, cp) == 0
  {
    FindKeyExact(Codepoints(entries), cp);
    forall k | 0 <= k < |entries| ensures Codepoints(entries)[k] == entries[k].codepoint {
    }
  }

  // Class ids address the matrix.
  ghost predicate KernValid(kern: KernTable) {
    kern.matrix != [] ==>
      && (forall k :: 0 <= k < |kern.leftClasses| ==> kern.leftClasses[k].classId <= kern.leftClassCount)
      && (forall k :: 0 <= k < |kern.rightClasses| ==> kern.rightClasses[k].classId <= kern.rightClassCount)
      && |kern.matrix| == kern.leftClassCount * kern.rightClassCount
  }

  lemma MatrixIndex(lc: nat, rc: nat, rows: nat, cols: nat)
    requires 0 < lc <= rows && 0 < rc <= cols
    ensures 0 <= (lc - 1) * cols + (rc - 1) < rows * cols
  {
    assert lc * cols <= rows * cols;
    assert lc * cols == (lc - 1) * cols + cols;
  }

  function GetKerning(font: EpdFontData, script: Script, leftCp: nat, rightCp: nat): int
    requires KernValid(font.kern)
  {
    var left, right := script.resolve(leftCp), script.resolve(rightCp);
    if script.isCjkBreakable(left) || script.isCjkBreakable(right) then 0
    else if font.kern.matrix == [] then 0
    else
      var lc := LookupKernClass(font.kern.leftClasses, left);
      if lc == 0 then 0
      else
        var rc := LookupKernClass(font.kern.rightClasses, right);
        if rc == 0 then 0
        else
          MatrixIndex(lc, rc, font.kern.leftClassCount, font.kern.rightClassCount);
          font.kern.matrix[(lc - 1) * font.kern.rightClassCount + (rc - 1)]
  }

  // Class tables hold 16-bit codepoints, so no other codepoint is compared with them.
  lemma BeyondClassTables(entries: seq<KernClassEntry>, cp: nat)
    ensures cp >= 0x1_0000 ==> LookupKernClass(entries, cp) == 0
    ensures entries == [] ==> LookupKernClass(entries, cp) == 0
  {
  }

  // Row r of the matrix: the kerns of one left class with every right class.
  function KernRow(kern: KernTable, r: nat): (row: seq<int>)
    requires r < kern.leftClassCount && |kern.matrix| == kern.leftClassCount * kern.rightClassCount
    ensures |row| == kern.rightClassCount
  {
    RowFits(r, kern.leftClassCount, kern.rightClassCount);
    kern.matrix[r * kern.rightClassCount..][..kern.rightClassCount]
  }

  lemma RowFits(r: nat, rows: nat, cols: nat)
    requires r < rows
    ensures r * cols + cols <= rows * cols
  {
    assert (r + 1) * cols <= rows * cols;
  }

  // On sorted class tables the kern of two listed codepoints is the entry of the matrix in the row of the
  // left one's class and the column of the right one's.
  lemma KerningExact(font: EpdFontData, script: Script, leftCp: nat, rightCp: nat, j: nat, k: nat)
    requires KernValid(font.kern) && font.kern.matrix != []
    requires Increasing(Codepoints(font.kern.leftClasses)) && Increasing(Codepoints(font.kern.rightClasses))
    requires j < |font.kern.leftClasses| && font.kern.leftClasses[j].codepoint == script.resolve(leftCp) <= 0xFFFF
    requires k < |font.kern.rightClasses| && font.kern.rightClasses[k].codepoint == script.resolve(rightCp) <= 0xFFFF
    ensures var lc, rc := font.kern.leftClasses[j].classId, font.kern.rightClasses[k].classId;
            GetKerning(font, script, leftCp, rightCp)
            == if script.isCjkBreakable(script.resolve(leftCp)) || script.isCjkBreakable(script.resolve(rightCp)) then 0
               else if lc == 0 || rc == 0 then 0
               else KernRow(font.kern, lc - 1)[rc - 1]
  {
    hide LookupKernClass;
    KernClassExact(font.kern.leftClasses, script.resolve(leftCp));
    KernClassExact(font.kern.rightClasses, script.resolve(rightCp));
    var lc, rc := font.kern.leftClasses[j].classId, font.kern.rightClasses[k].classId;
    if lc > 0 && rc > 0 {
      MatrixIndex(lc, rc, font.kern.leftClassCount, font.kern.rightClassCount);
      RowFits(lc - 1, font.kern.leftClassCount, font.kern.rightClassCount);
    }
  }

  // Any other pair is not kerned.
  lemma UnlistedIsNotKerned(font: EpdFontData, script: Script, leftCp: nat, rightCp: nat)
    requires KernValid(font.kern)
    requires Increasing(Codepoints(font.kern.leftClasses)) && Increasing(Codepoints(font.kern.rightClasses))
    requires || font.kern.matrix == []
             || (forall k :: 0 <= k < |font.kern.leftClasses| ==> font.kern.leftClasses[k].codepoint != script.resolve(leftCp))
             || (forall k :: 0 <= k < |font.kern.rightClasses| ==> font.kern.rightClasses[k].codepoint != script.resolve(rightCp))
    ensures GetKerning(font, script, leftCp, rightCp) == 0
  {
    hide LookupKernClass;
    OnlyListedHaveClasses(font.kern.leftClasses, script.resolve(leftCp));
    OnlyListedHaveClasses(font.kern.rightClasses, script.resolve(rightCp));
  }

  lemma OnlyListedHaveClasses(entries: seq<KernClassEntry>, cp: nat)
    requires Increasing(Codepoints(entries))
    ensures (forall k :: 0 <= k < |entries| ==> entries[k].codepoint != cp) ==> LookupKernClass(entries, cp) == 0
  {
    if cp <= 0xFFFF { KernClassExact(entries, cp); }
  }

  function PairKeys(pairs: seq<LigaturePair>): (r: seq<nat>)
    ensures |r| == |pairs|
  {
    seq(|pairs|, k requires 0 <= k < |pairs| => pairs[k].pair)
  }

  // 0 when the pair has no ligature.
  function GetLigature(font: EpdFontData, script: Script, leftCp: nat, rightCp: nat): nat {
    if font.ligaturePairs == [] || leftCp > 0xFFFF || rightCp > 0xFFFF then 0
    else
      var left, right := script.resolve(leftCp), script.resolve(rightCp);
      if left > 0xFFFF || right > 0xFFFF then 0
      else
        var it := FindKey(PairKeys(font.ligaturePairs), left * 0x1_0000 + right);
        if it.Some? then font.ligaturePairs[it.value].ligatureCp else 0
  }

  // On a sorted pair table the packed key loses nothing: a ligature is found exactly for the pairs listed.
  lemma LigatureExact(font: EpdFontData, script: Script, leftCp: nat, rightCp: nat, k: nat)
    requires Increasing(PairKeys(font.ligaturePairs)) && k < |font.ligaturePairs|
    requires leftCp <= 0xFFFF && rightCp <= 0xFFFF
    requires script.resolve(leftCp) <= 0xFFFF && script.resolve(rightCp) <= 0xFFFF
    ensures font.ligaturePairs[k].pair / 0x1_0000 == script.resolve(leftCp)
         && font.ligaturePairs[k].pair % 0x1_0000 == script.resolve(rightCp)
        ==> GetLigature(font, script, leftCp, rightCp) == font.ligaturePairs[k].ligatureCp
    ensures (forall j :: 0 <= j < |font.ligaturePairs| ==>
               !(PairKeys(font.ligaturePairs)[j] / 0x1_0000 == script.resolve(leftCp)
                 && PairKeys(font.ligaturePairs)[j] % 0x1_0000 == script.resolve(rightCp)))
        ==> GetLigature(font, script, leftCp, rightCp) == 0
  {
    var key := script.resolve(leftCp) * 0x1_0000 + script.resolve(rightCp);
    FindKeyExact(PairKeys(font.ligaturePairs), key);
    assert PairKeys(font.ligaturePairs)[k] == font.ligaturePairs[k].pair;
  }

  // A codepoint beyond 16 bits, before or after remapping, never forms a ligature, although its packed key
  // could collide with that of a listed pair.
  lemma NoLigatureBeyond16Bits(font: EpdFontData, script: Script, leftCp: nat, rightCp: nat)
    ensures leftCp >= 0x1_0000 || rightCp >= 0x1_0000 || script.resolve(leftCp) >= 0x1_0000 || script.resolve(rightCp) >= 0x1_0000
        ==> GetLigature(font, script, leftCp, rightCp) == 0
    ensures font.ligaturePairs == [] ==> GetLigature(font, script, leftCp, rightCp) == 0
  {
  }

  function Firsts(intervals: seq<Interval>): (r: seq<nat>)
    ensures |r| == |intervals|
  {
    seq(|intervals|, k requires 0 <= k < |intervals| => intervals[k].first)
  }

  // getGlyphNoReplacement: the interval before std::upper_bound, then the miss handler.
  function GetGlyphNoReplacement(font: EpdFontData, script: Script, cpIn: nat): Option<Glyph>
    requires Enumerates(font.intervals, |font.glyph|)
  {
    var cp := script.resolve(cpIn);
    var it := LowerBound(Firsts(font.intervals), cp + 1, 0, |font.intervals|);
    if it > 0 && cp <= font.intervals[it - 1].last then
      UpperBoundFinds(font.intervals, |font.glyph|, cp);
      Some(font.glyph[font.intervals[it - 1].offset + (cp - font.intervals[it - 1].first)])
    else if font.glyphMissHandler.Some? then font.glyphMissHandler.value(cp)
    else None
  }

  // The upper_bound lookup of rendering and the binary search of prewarming agree.
  lemma UpperBoundFinds(intervals: seq<Interval>, n: nat, cp: nat)
    requires Enumerates(intervals, n)
    ensures var it := LowerBound(Firsts(intervals), cp + 1, 0, |intervals|);
            if it > 0 && cp <= intervals[it - 1].last
            then 0 <= intervals[it - 1].offset + (cp - intervals[it - 1].first) == GlyphIndexOf(intervals, cp) < n
            else GlyphIndexOf(intervals, cp) == -1
  {
    hide LowerBound;
    UpperBoundSplits(intervals, cp);
    var it := LowerBound(Firsts(intervals), cp + 1, 0, |intervals|);
    if it > 0 && cp <= intervals[it - 1].last {
      GlyphIndexInInterval(intervals, cp, it - 1);
      GlyphIndexValid(intervals, n, cp);
    } else {
      GlyphIndexOutside(intervals, cp);
    }
  }

  lemma UpperBoundSplits(intervals: seq<Interval>, cp: nat)
    requires SortedIntervals(intervals)
    ensures var it := LowerBound(Firsts(intervals), cp + 1, 0, |intervals|);
            && (forall k :: 0 <= k < it ==> intervals[k].first <= cp)
            && (forall k :: it <= k < |intervals| ==> cp < intervals[k].first)
  {
    hide LowerBound;
    FirstsIncrease(intervals);
    LowerBoundSplits(Firsts(intervals), cp + 1, 0, |intervals|);
    forall k | 0 <= k < |intervals| ensures Firsts(intervals)[k] == intervals[k].first {
    }
  }

  lemma FirstsIncrease(intervals: seq<Interval>)
    requires SortedIntervals(intervals)
    ensures Increasing(Firsts(intervals))
  {
    forall j, k | 0 <= j < k < |intervals| ensures Firsts(intervals)[j] < Firsts(intervals)[k] {
      assert intervals[j].first <= intervals[j].last < intervals[k].first;
    }
  }

  function GetGlyph(font: EpdFontData, script: Script, cpIn: nat): Option<Glyph>
    requires Enumerates(font.intervals, |font.glyph|)
  {
    var glyph := GetGlyphNoReplacement(font, script, cpIn);
    if glyph.Some? then glyph
    else if script.resolve(cpIn) != REPLACEMENT_GLYPH then GetGlyphNoReplacement(font, script, REPLACEMENT_GLYPH)
    else None
  }

  // The glyph of a codepoint, remapped: the font's own, else what the miss handler finds, else the same for
  // the replacement character.
  lemma GlyphExact(font: EpdFontData, script: Script, cpIn: nat)
    requires Enumerates(font.intervals, |font.glyph|)
    ensures var i := GlyphIndexOf(font.intervals, script.resolve(cpIn));
            i >= 0 ==> i < |font.glyph| && GetGlyph(font, script, cpIn) == Some(font.glyph[i])
    ensures GlyphIndexOf(font.intervals, script.resolve(cpIn)) < 0 ==>
              var cp := script.resolve(cpIn);
              var missed := if font.glyphMissHandler.Some? then font.glyphMissHandler.value(cp) else None;
              && (missed.Some? ==> GetGlyph(font, script, cpIn) == missed)
              && (missed.None? && cp == 0xFFFD ==> GetGlyph(font, script, cpIn) == None)
              && (missed.None? && cp != 0xFFFD && script.resolve(0xFFFD) == 0xFFFD ==>
                    GetGlyph(font, script, cpIn) == GetGlyph(font, script, 0xFFFD))
  {
    hide LowerBound, GlyphIndexOf;
    UpperBoundFinds(font.intervals, |font.glyph|, script.resolve(cpIn));
  }

  // ----- ligatures -----

  // Greedy substitution: the codepoint to draw and how many of the following codepoints it takes in.
  function Ligated(font: EpdFontData, script: Script, cp: nat, rest: seq<codepoint>): (r: (nat, nat))
    ensures r.1 <= |rest| && (cp > 0 ==> r.0 > 0)
    decreases |rest|
  {
    if font.ligaturePairs == [] || rest == [] then (cp, 0)
    else
      var lig := GetLigature(font, script, cp, rest[0]);
      if lig == 0 then (cp, 0)
      else
        var (result, taken) := Ligated(font, script, lig, rest[1..]);
        (result, taken + 1)
  }

  // Greedy means maximal: what remains cannot be joined any further.
  lemma {:induction false} LigatedIsMaximal(font: EpdFontData, script: Script, cp: nat, rest: seq<codepoint>)
    ensures var (result, taken) := Ligated(font, script, cp, rest);
            taken < |rest| ==> GetLigature(font, script, result, rest[taken]) == 0
    decreases |rest|
  {
    if font.ligaturePairs != [] && rest != [] {
      var lig := GetLigature(font, script, cp, rest[0]);
      if lig != 0 {
        LigatedIsMaximal(font, script, lig, rest[1..]);
        var (_, taken) := Ligated(font, script, lig, rest[1..]);
        assert taken < |rest[1..]| ==> rest[1..][taken] == rest[taken + 1];
      }
    }
  }

  method ApplyLigatures(font: EpdFontData, script: Script, cp0: nat, text: seq<codepoint>, pos0: nat)
    returns (cp: nat, pos: nat)
    requires pos0 <= |text|
    ensures (cp, pos - pos0) == Ligated(font, script, cp0, text[pos0..])
    ensures pos0 <= pos <= |text|
  {
    hide GetLigature;
    cp, pos := cp0, pos0;
    if font.ligaturePairs == [] { return; }
    while true
      invariant pos0 <= pos <= |text|
      invariant Ligated(font, script, cp0, text[pos0..])
             == (Ligated(font, script, cp, text[pos..]).0, Ligated(font, script, cp, text[pos..]).1 + (pos - pos0))
      decreases |text| - pos
    {
      if pos == |text| { break; }
      var saved := pos;
      var nextCp := text[pos];
      assert text[pos..][0] == nextCp && text[pos..][1..] == text[pos + 1..];
      pos := pos + 1;
      var lig := GetLigature(font, script, cp, nextCp);
      if lig == 0 {
        pos := saved;
        break;
      }
      cp := lig;
    }
  }

  // What is drawn: marks as they are, everything else after ligature substitution.
  datatype Item = Mark(cp: nat) | Base(cp: nat)

  function Shape(font: EpdFontData, script: Script, text: seq<codepoint>): seq<Item>
    decreases |text|
  {
    if text == [] then []
    else
      var (item, taken) := FirstItem(font, script, text);
      [item] + Shape(font, script, text[taken..])
  }

  // The first item of a text and the number of codepoints it takes.
  function FirstItem(font: EpdFontData, script: Script, text: seq<codepoint>): (r: (Item, nat))
    requires text != []
    ensures 0 < r.1 <= |text| && r.0.cp > 0
  {
    if IsCombiningMark(text[0]) then (Mark(text[0]), 1)
    else
      var (cp, taken) := Ligated(font, script, text[0], text[1..]);
      (Base(cp), 1 + taken)
  }

  // Every codepoint of the text is drawn once: a mark as it is, a base with what joins onto it.
  lemma ShapeFirst(font: EpdFontData, script: Script, text: seq<codepoint>)
    requires text != []
    ensures IsCombiningMark(text[0]) ==> Shape(font, script, text) == [Mark(text[0])] + Shape(font, script, text[1..])
    ensures !IsCombiningMark(text[0]) ==>
              var (cp, taken) := Ligated(font, script, text[0], text[1..]);
              Shape(font, script, text) == [Base(cp)] + Shape(font, script, text[1..][taken..])
  {
    hide Ligated, IsCombiningMark;
    if !IsCombiningMark(text[0]) {
      var taken := Ligated(font, script, text[0], text[1..]).1;
      assert text[1..][taken..] == text[1 + taken..];
    }
  }

  // Without ligatures the items are the codepoints of the text, one by one.
  lemma {:induction false} ShapeWithoutLigatures(font: EpdFontData, script: Script, text: seq<codepoint>, k: nat)
    requires font.ligaturePairs == [] && k < |text|
    ensures var items := Shape(font, script, text);
            |items| == |text| && items[k] == if IsCombiningMark(text[k]) then Mark(text[k]) else Base(text[k])
  {
    hide IsCombiningMark;
    ShapeFirst(font, script, text);
    if |text| > 1 {
      ShapeWithoutLigatures(font, script, text[1..], if k == 0 then 0 else k - 1);
    } else {
      assert Shape(font, script, text[1..]) == [];
    }
  }

  // ----- the pen -----

  // Position of the last base glyph, its box, and the advance still to be applied.
  datatype Pen = Pen(baseX: int, baseLeft: int, baseWidth: nat, baseTop: int, advance: int, prev: nat)
  datatype Bounds = Bounds(minX: int, minY: int, maxX: int, maxY: int)

  function StartPen(x: int): Pen {
    Pen(x, 0, 0, 0, 0, 0)
  }

  // The base position at which a base glyph is drawn: the pending advance and the kern snap as one.
  function NextBaseX(font: EpdFontData, script: Script, pen: Pen, cp: nat): int
    requires KernValid(font.kern)
  {
    if pen.prev != 0 then pen.baseX + ToPixel(pen.advance + GetKerning(font, script, pen.prev, cp)) else pen.baseX
  }

  function AfterItem(font: EpdFontData, script: Script, pen: Pen, item: Item): Pen
    requires KernValid(font.kern) && Enumerates(font.intervals, |font.glyph|)
  {
    if item.Mark? then pen
    else
      match GetGlyph(font, script, item.cp)
      case None => Pen(pen.baseX + ToPixel(pen.advance), 0, 0, 0, 0, 0)
      case Some(g) => Pen(NextBaseX(font, script, pen, item.cp), g.left, g.width, g.top, g.advanceX, item.cp)
  }

  function Min(a: int, b: int): int { if b < a then b else a }
  function Max(a: int, b: int): int { if a < b then b else a }

  // The box that a glyph paints, from its pen position.
  function Box(g: Glyph, x: int, y: int): Bounds {
    Bounds(x + g.left, y + g.top - g.height, x + g.left + g.width, y + g.top)
  }

  // As wide and as high as the glyph, its left edge and its top as far from the pen as the font says.
  lemma BoxExact(g: Glyph, x: int, y: int)
    ensures var b := Box(g, x, y);
            && b.minX - x == g.left && b.maxX - b.minX == g.width
            && b.maxY - y == g.top && b.maxY - b.minY == g.height
  {
  }

  function ItemBox(font: EpdFontData, script: Script, pen: Pen, startY: int, item: Item): Option<Bounds>
    requires KernValid(font.kern) && Enumerates(font.intervals, |font.glyph|)
  {
    match GetGlyph(font, script, item.cp)
    case None => None
    case Some(g) =>
      if item.Mark? then
        var anchor := AnchorFor(item.cp);
        Some(Box(g, AnchorOver(anchor, pen.baseX, pen.baseLeft, pen.baseWidth, g.left, g.width),
                 startY - RaiseAboveBase(anchor, g.top, g.height, pen.baseTop)))
      else Some(Box(g, NextBaseX(font, script, pen, item.cp), startY))
  }

  function Hull(b: Bounds, box: Option<Bounds>): Bounds {
    match box
    case None => b
    case Some(c) => Bounds(Min(b.minX, c.minX), Min(b.minY, c.minY), Max(b.maxX, c.maxX), Max(b.maxY, c.maxY))
  }

  // The pen after a run of items, and the hull of the boxes they paint.
  function PenAfter(font: EpdFontData, script: Script, pen: Pen, items: seq<Item>): Pen
    requires KernValid(font.kern) && Enumerates(font.intervals, |font.glyph|)
    decreases |items|
  {
    if items == [] then pen else PenAfter(font, script, AfterItem(font, script, pen, items[0]), items[1..])
  }

  function BoundsAfter(font: EpdFontData, script: Script, pen: Pen, startY: int, b: Bounds, items: seq<Item>): Bounds
    requires KernValid(font.kern) && Enumerates(font.intervals, |font.glyph|)
    decreases |items|
  {
    if items == [] then b
    else BoundsAfter(font, script, AfterItem(font, script, pen, items[0]), startY,
                     Hull(b, ItemBox(font, script, pen, startY, items[0])), items[1..])
  }

  function TextBounds(font: EpdFontData, script: Script, text: seq<codepoint>, startX: int, startY: int): Bounds
    requires KernValid(font.kern) && Enumerates(font.intervals, |font.glyph|)
  {
    BoundsAfter(font, script, StartPen(startX), startY, Bounds(startX, startY, startX, startY), Shape(font, script, text))
  }

  // EpdFont::getTextBounds, variable by variable.
  method GetTextBounds(font: EpdFontData, script: Script, text: seq<codepoint>, startX: int, startY: int)
    returns (minX: int, minY: int, maxX: int, maxY: int)
    requires KernValid(font.kern) && Enumerates(font.intervals, |font.glyph|)
    ensures Bounds(minX, minY, maxX, maxY) == TextBounds(font, script, text, startX, startY)
  {
    hide GetGlyph, GetKerning, Ligated, KernValid, Enumerates, ToPixel, AnchorOver, RaiseAboveBase, AnchorFor, IsCombiningMark;
    hide BoundsAfter, Shape;
    minX, minY, maxX, maxY := startX, startY, startX, startY;
    NothingDrawn(font, script);
    if text == [] { return; }
    var lastBaseX, lastBaseLeft, lastBaseTop, prevAdvanceFP := startX, 0, 0, 0;
    var lastBaseWidth: nat, prevCp: nat := 0, 0;
    var pos := 0;
    while pos < |text|
      invariant 0 <= pos <= |text|
      invariant TextBounds(font, script, text, startX, startY)
             == BoundsAfter(font, script, Pen(lastBaseX, lastBaseLeft, lastBaseWidth, lastBaseTop, prevAdvanceFP, prevCp),
                            startY, Bounds(minX, minY, maxX, maxY), Shape(font, script, text[pos..]))
    {
      BoundsStep(font, script, Pen(lastBaseX, lastBaseLeft, lastBaseWidth, lastBaseTop, prevAdvanceFP, prevCp),
                 startY, Bounds(minX, minY, maxX, maxY), text[pos..]);
      ghost var rest := text[pos..];
      var cp: nat := text[pos];
      pos := pos + 1;
      assert rest[0] == cp && rest[1..] == text[pos..];
      var isCombining := IsCombiningMark(cp);
      if !isCombining {
        cp, pos := ApplyLigatures(font, script, cp, text, pos);
      }
      assert rest[FirstItem(font, script, rest).1..] == text[pos..];
      var glyph := GetGlyph(font, script, cp);
      if glyph.None? {
        if !isCombining {
          lastBaseX := lastBaseX + ToPixel(prevAdvanceFP);
          prevCp, prevAdvanceFP, lastBaseLeft, lastBaseWidth, lastBaseTop := 0, 0, 0, 0, 0;
        }
        continue;
      }
      var g := glyph.value;
      var anchor := if isCombining then AnchorFor(cp) else CenterRaised;
      var raiseBy := if isCombining then RaiseAboveBase(anchor, g.top, g.height, lastBaseTop) else 0;
      if !isCombining && prevCp != 0 {
        lastBaseX := lastBaseX + ToPixel(prevAdvanceFP + GetKerning(font, script, prevCp, cp));
      }
      var glyphBaseX := if isCombining then AnchorOver(anchor, lastBaseX, lastBaseLeft, lastBaseWidth, g.left, g.width)
                        else lastBaseX;
      var glyphBaseY := startY - raiseBy;
      minX := Min(minX, glyphBaseX + g.left);
      maxX := Max(maxX, glyphBaseX + g.left + g.width);
      minY := Min(minY, glyphBaseY + g.top - g.height);
      maxY := Max(maxY, glyphBaseY + g.top);
      if !isCombining {
        lastBaseLeft, lastBaseWidth, lastBaseTop := g.left, g.width, g.top;
        prevAdvanceFP, prevCp := g.advanceX, cp;
      }
    }
    assert text[pos..] == [];
  }

  lemma NothingDrawn(font: EpdFontData, script: Script)
    requires KernValid(font.kern) && Enumerates(font.intervals, |font.glyph|)
    ensures Shape(font, script, []) == []
    ensures forall pen, startY, b :: BoundsAfter(font, script, pen, startY, b, []) == b
  {
  }

  lemma BoundsStep(font: EpdFontData, script: Script, pen: Pen, startY: int, b: Bounds, text: seq<codepoint>)
    requires KernValid(font.kern) && Enumerates(font.intervals, |font.glyph|) && text != []
    ensures var (item, taken) := FirstItem(font, script, text);
            BoundsAfter(font, script, pen, startY, b, Shape(font, script, text))
            == BoundsAfter(font, script, AfterItem(font, script, pen, item), startY,
                           Hull(b, ItemBox(font, script, pen, startY, item)), Shape(font, script, text[taken..]))
  {
    hide FirstItem, AfterItem, ItemBox, KernValid, Enumerates;
    var (item, taken) := FirstItem(font, script, text);
    assert Shape(font, script, text)[1..] == Shape(font, script, text[taken..]);
  }

  // ----- what the measurements mean -----

  // Marks are drawn over the pen without moving it.
  lemma {:induction false} MarksKeepPen(font: EpdFontData, script: Script, pen: Pen, items: seq<Item>)
    requires KernValid(font.kern) && Enumerates(font.intervals, |font.glyph|)
    ensures PenAfter(font, script, pen, items) == PenAfter(font, script, pen, Bases(items))
    decreases |items|
  {
    hide AfterItem, KernValid, Enumerates;
    if items != [] {
      MarksKeepPen(font, script, AfterItem(font, script, pen, items[0]), items[1..]);
      if items[0].Mark? {
        MarkKeepsPen(font, script, pen, items[0]);
      }
    }
  }

  lemma MarkKeepsPen(font: EpdFontData, script: Script, pen: Pen, item: Item)
    requires KernValid(font.kern) && Enumerates(font.intervals, |font.glyph|) && item.Mark?
    ensures AfterItem(font, script, pen, item) == pen
  {
  }

  function Bases(items: seq<Item>): seq<Item> {
    if items == [] then []
    else if items[0].Mark? then Bases(items[1..])
    else [items[0]] + Bases(items[1..])
  }

  // The advance of an item in fixed point: nothing for a missing glyph.
  function Advance(font: EpdFontData, script: Script, item: Item): nat
    requires Enumerates(font.intervals, |font.glyph|)
  {
    match GetGlyph(font, script, item.cp)
    case None => 0
    case Some(g) => g.advanceX
  }

  // The exact fixed-point distance between two neighbouring bases: kerned when both have glyphs.
  function Spacing(font: EpdFontData, script: Script, a: Item, b: Item): int
    requires KernValid(font.kern) && Enumerates(font.intervals, |font.glyph|)
  {
    if GetGlyph(font, script, a.cp).None? then 0
    else if GetGlyph(font, script, b.cp).None? then Advance(font, script, a)
    else Advance(font, script, a) + GetKerning(font, script, a.cp, b.cp)
  }

  // Sums over the neighbouring pairs of bases[..n + 1]: exact, and snapped pair by pair.
  function ExactSum(font: EpdFontData, script: Script, bases: seq<Item>, n: nat): int
    requires KernValid(font.kern) && Enumerates(font.intervals, |font.glyph|) && n < |bases|
  {
    if n == 0 then 0 else ExactSum(font, script, bases, n - 1) + Spacing(font, script, bases[n - 1], bases[n])
  }

  function SnappedSum(font: EpdFontData, script: Script, bases: seq<Item>, n: nat): int
    requires KernValid(font.kern) && Enumerates(font.intervals, |font.glyph|) && n < |bases|
  {
    if n == 0 then 0
    else SnappedSum(font, script, bases, n - 1) + ToPixel(Spacing(font, script, bases[n - 1], bases[n]))
  }

  lemma {:induction false} PenAppends(font: EpdFontData, script: Script, pen: Pen, items: seq<Item>, item: Item)
    requires KernValid(font.kern) && Enumerates(font.intervals, |font.glyph|)
    ensures PenAfter(font, script, pen, items + [item])
         == AfterItem(font, script, PenAfter(font, script, pen, items), item)
    decreases |items|
  {
    hide AfterItem, KernValid, Enumerates;
    if items == [] {
      assert PenAfter(font, script, AfterItem(font, script, pen, item), []) == AfterItem(font, script, pen, item);
    } else {
      PenAppends(font, script, AfterItem(font, script, pen, items[0]), items[1..], item);
      assert (items + [item])[1..] == items[1..] + [item];
    }
  }

  // Differential rounding: the n-th base stands at the start plus the snapped spacings before it,
  // so a pair's spacing does not depend on where on the line the pair stands.
  lemma {:induction false} CursorIsSnappedSum(font: EpdFontData, script: Script, startX: int, bases: seq<Item>, n: nat)
    requires KernValid(font.kern) && Enumerates(font.intervals, |font.glyph|)
    requires n < |bases| && forall k :: 0 <= k < |bases| ==> bases[k].Base? && bases[k].cp > 0
    ensures var pen := PenAfter(font, script, StartPen(startX), bases[..n + 1]);
            && pen.baseX == startX + SnappedSum(font, script, bases, n)
            && pen.advance == Advance(font, script, bases[n])
            && pen.prev == if GetGlyph(font, script, bases[n].cp).Some? then bases[n].cp else 0
  {
    hide KernValid, Enumerates, GetGlyph, GetKerning;
    PenAppends(font, script, StartPen(startX), bases[..n], bases[n]);
    assert bases[..n] + [bases[n]] == bases[..n + 1];
    if n > 0 {
      CursorIsSnappedSum(font, script, startX, bases, n - 1);
      assert bases[..n - 1 + 1] == bases[..n];
    }
  }

  // Snapping drifts by at most half a pixel a step from the exact sum.
  lemma {:induction false} DriftIsBounded(font: EpdFontData, script: Script, bases: seq<Item>, n: nat)
    requires KernValid(font.kern) && Enumerates(font.intervals, |font.glyph|) && n < |bases|
    ensures -HALF * n <= FromPixel(SnappedSum(font, script, bases, n)) - ExactSum(font, script, bases, n) <= HALF * n
  {
    hide KernValid, Enumerates, Spacing, ToPixel;
    if n > 0 {
      DriftIsBounded(font, script, bases, n - 1);
      ToPixelNearest(Spacing(font, script, bases[n - 1], bases[n]));
    }
  }

  function Shifted(b: Bounds, dx: int, dy: int): Bounds {
    Bounds(b.minX + dx, b.minY + dy, b.maxX + dx, b.maxY + dy)
  }

  lemma ItemTranslates(font: EpdFontData, script: Script, pen: Pen, startY: int, item: Item, dx: int, dy: int)
    requires KernValid(font.kern) && Enumerates(font.intervals, |font.glyph|)
    ensures var moved := pen.(baseX := pen.baseX + dx);
            && AfterItem(font, script, moved, item)
               == AfterItem(font, script, pen, item).(baseX := AfterItem(font, script, pen, item).baseX + dx)
            && ItemBox(font, script, moved, startY + dy, item)
               == match ItemBox(font, script, pen, startY, item)
                  case None => None
                  case Some(c) => Some(Shifted(c, dx, dy))
  {
    hide GetGlyph, GetKerning, ToPixel, KernValid, Enumerates;
  }

  lemma {:induction false} BoundsTranslate(font: EpdFontData, script: Script, pen: Pen, startY: int, b: Bounds,
                                           items: seq<Item>, dx: int, dy: int)
    requires KernValid(font.kern) && Enumerates(font.intervals, |font.glyph|)
    ensures BoundsAfter(font, script, pen.(baseX := pen.baseX + dx), startY + dy, Shifted(b, dx, dy), items)
         == Shifted(BoundsAfter(font, script, pen, startY, b, items), dx, dy)
    decreases |items|
  {
    hide KernValid, Enumerates, AfterItem, ItemBox;
    if items != [] {
      ItemTranslates(font, script, pen, startY, items[0], dx, dy);
      BoundsTranslate(font, script, AfterItem(font, script, pen, items[0]), startY,
                      Hull(b, ItemBox(font, script, pen, startY, items[0])), items[1..], dx, dy);
    }
  }

  // Measuring elsewhere moves the bounds and changes nothing else.
  lemma TextBoundsTranslate(font: EpdFontData, script: Script, text: seq<codepoint>, x: int, y: int, dx: int, dy: int)
    requires KernValid(font.kern) && Enumerates(font.intervals, |font.glyph|)
    ensures TextBounds(font, script, text, x + dx, y + dy) == Shifted(TextBounds(font, script, text, x, y), dx, dy)
  {
    BoundsTranslate(font, script, StartPen(x), y, Bounds(x, y, x, y), Shape(font, script, text), dx, dy);
  }

  ghost predicate Inside(c: Bounds, b: Bounds) {
    b.minX <= c.minX && b.minY <= c.minY && c.maxX <= b.maxX && c.maxY <= b.maxY
  }

  // The box of the n-th item, where the pen finds it.
  function NthBox(font: EpdFontData, script: Script, pen: Pen, startY: int, items: seq<Item>, n: nat): Option<Bounds>
    requires KernValid(font.kern) && Enumerates(font.intervals, |font.glyph|) && n < |items|
  {
    ItemBox(font, script, PenAfter(font, script, pen, items[..n]), startY, items[n])
  }

  // The bounds contain the start point and every box, and each side is touched by one of them.
  lemma {:induction false} BoundsAreHull(font: EpdFontData, script: Script, pen: Pen, startY: int, b: Bounds, items: seq<Item>)
    requires KernValid(font.kern) && Enumerates(font.intervals, |font.glyph|)
    ensures var r := BoundsAfter(font, script, pen, startY, b, items);
            && Inside(b, r)
            && (forall n :: 0 <= n < |items| && NthBox(font, script, pen, startY, items, n).Some? ==>
                  Inside(NthBox(font, script, pen, startY, items, n).value, r))
            && (r.minX == b.minX || exists n :: 0 <= n < |items| && NthBox(font, script, pen, startY, items, n).Some?
                                      && NthBox(font, script, pen, startY, items, n).value.minX == r.minX)
            && (r.minY == b.minY || exists n :: 0 <= n < |items| && NthBox(font, script, pen, startY, items, n).Some?
                                      && NthBox(font, script, pen, startY, items, n).value.minY == r.minY)
            && (r.maxX == b.maxX || exists n :: 0 <= n < |items| && NthBox(font, script, pen, startY, items, n).Some?
                                      && NthBox(font, script, pen, startY, items, n).value.maxX == r.maxX)
            && (r.maxY == b.maxY || exists n :: 0 <= n < |items| && NthBox(font, script, pen, startY, items, n).Some?
                                      && NthBox(font, script, pen, startY, items, n).value.maxY == r.maxY)
    decreases |items|
  {
    hide KernValid, Enumerates, AfterItem, ItemBox;
    if items != [] {
      var next := AfterItem(font, script, pen, items[0]);
      var box := ItemBox(font, script, pen, startY, items[0]);
      var rest := items[1..];
      BoundsAreHull(font, script, next, startY, Hull(b, box), rest);
      FirstBox(font, script, pen, startY, items);
      var r := BoundsAfter(font, script, pen, startY, b, items);
      forall n | 0 < n < |items|
        ensures NthBox(font, script, pen, startY, items, n) == NthBox(font, script, next, startY, rest, n - 1)
      {
        LaterBox(font, script, pen, startY, items, n);
      }
      forall m | 0 <= m < |rest|
        ensures NthBox(font, script, pen, startY, items, m + 1) == NthBox(font, script, next, startY, rest, m)
      {
        LaterBox(font, script, pen, startY, items, m + 1);
      }
    }
  }

  lemma FirstBox(font: EpdFontData, script: Script, pen: Pen, startY: int, items: seq<Item>)
    requires KernValid(font.kern) && Enumerates(font.intervals, |font.glyph|) && items != []
    ensures NthBox(font, script, pen, startY, items, 0) == ItemBox(font, script, pen, startY, items[0])
  {
    hide KernValid, Enumerates, AfterItem, ItemBox;
  }

  lemma LaterBox(font: EpdFontData, script: Script, pen: Pen, startY: int, items: seq<Item>, n: nat)
    requires KernValid(font.kern) && Enumerates(font.intervals, |font.glyph|) && 0 < n < |items|
    ensures NthBox(font, script, pen, startY, items, n)
         == NthBox(font, script, AfterItem(font, script, pen, items[0]), startY, items[1..], n - 1)
  {
    hide KernValid, Enumerates, AfterItem, ItemBox;
    assert items[..n][1..] == items[1..][..n - 1] && items[..n][0] == items[0];
  }

  // ----- where the glyphs of a text stand -----

  lemma {:induction false} ShapeIsPositive(font: EpdFontData, script: Script, text: seq<codepoint>)
    ensures forall k :: 0 <= k < |Shape(font, script, text)| ==> Shape(font, script, text)[k].cp > 0
    decreases |text|
  {
    hide FirstItem;
    if text != [] {
      var (_, taken) := FirstItem(font, script, text);
      ShapeIsPositive(font, script, text[taken..]);
    }
  }

  lemma {:induction false} BasesConcat(a: seq<Item>, b: seq<Item>)
    ensures Bases(a + b) == Bases(a) + Bases(b)
  {
    if a == [] {
      assert a + b == b;
    } else {
      assert (a + b)[1..] == a[1..] + b;
      BasesConcat(a[1..], b);
    }
  }

  lemma {:induction false} BasesMembers(items: seq<Item>)
    requires forall k :: 0 <= k < |items| ==> items[k].cp > 0
    ensures forall k :: 0 <= k < |Bases(items)| ==> Bases(items)[k].Base? && Bases(items)[k].cp > 0
  {
    if items != [] {
      BasesMembers(items[1..]);
    }
  }

  // The bases before item k are a prefix of all bases, which item k continues if it is one.
  lemma BasesBefore(items: seq<Item>, k: nat)
    requires k < |items|
    ensures var n := |Bases(items[..k])|;
            && n <= |Bases(items)| && Bases(items[..k]) == Bases(items)[..n]
            && (items[k].Base? ==> n < |Bases(items)| && Bases(items)[n] == items[k])
  {
    BasesConcat(items[..k], items[k..]);
    assert items == items[..k] + items[k..];
    assert items[k..][0] == items[k];
  }

  // In any text the box of a base is its glyph's, at the start plus the snapped spacings of the pairs of
  // bases before it, marks not counted.
  lemma BaseStandsAt(font: EpdFontData, script: Script, text: seq<codepoint>, startX: int, startY: int, k: nat)
    requires KernValid(font.kern) && Enumerates(font.intervals, |font.glyph|)
    requires k < |Shape(font, script, text)| && Shape(font, script, text)[k].Base?
    requires GetGlyph(font, script, Shape(font, script, text)[k].cp).Some?
    ensures var items := Shape(font, script, text);
            var bases, n := Bases(items), |Bases(items[..k])|;
            && n < |bases| && bases[n] == items[k]
            && NthBox(font, script, StartPen(startX), startY, items, k)
               == Some(Box(GetGlyph(font, script, items[k].cp).value, startX + SnappedSum(font, script, bases, n), startY))
  {
    hide KernValid, Enumerates, GetGlyph, Shape, SnappedSum, Bases, PenAfter, NextBaseX;
    var items := Shape(font, script, text);
    var bases, n := Bases(items), |Bases(items[..k])|;
    ShapeIsPositive(font, script, text);
    BasesMembers(items);
    BasesBefore(items, k);
    MarksKeepPen(font, script, StartPen(startX), items[..k]);
    CursorIsSnappedSum(font, script, startX, bases, n);
    PenAppends(font, script, StartPen(startX), bases[..n], bases[n]);
    assert bases[..n] + [bases[n]] == bases[..n + 1];
  }

  // Two bases with nothing but marks between them stand apart by the advance of the first and the kern of
  // the two, as one to the nearest pixel.
  lemma BasesStandApart(font: EpdFontData, script: Script, text: seq<codepoint>, startX: int, startY: int, j: nat, k: nat)
    requires KernValid(font.kern) && Enumerates(font.intervals, |font.glyph|)
    requires j < k < |Shape(font, script, text)| && Bases(Shape(font, script, text)[j + 1..k]) == []
    requires Shape(font, script, text)[j].Base? && Shape(font, script, text)[k].Base?
    requires GetGlyph(font, script, Shape(font, script, text)[j].cp).Some?
    requires GetGlyph(font, script, Shape(font, script, text)[k].cp).Some?
    ensures var items := Shape(font, script, text);
            var a, b := GetGlyph(font, script, items[j].cp).value, GetGlyph(font, script, items[k].cp).value;
            exists x :: NthBox(font, script, StartPen(startX), startY, items, j) == Some(Box(a, x, startY))
                        && NthBox(font, script, StartPen(startX), startY, items, k)
                           == Some(Box(b, x + ToPixel(a.advanceX + GetKerning(font, script, items[j].cp, items[k].cp)), startY))
  {
    hide KernValid, Enumerates, GetGlyph, GetKerning, Shape, Bases, PenAfter, NextBaseX, NthBox, Box, ToPixel;
    var items := Shape(font, script, text);
    var n := |Bases(items[..j])|;
    BaseStandsAt(font, script, text, startX, startY, j);
    BaseStandsAt(font, script, text, startX, startY, k);
    assert items[..k] == items[..j] + [items[j]] + items[j + 1..k];
    BasesConcat(items[..j] + [items[j]], items[j + 1..k]);
    BasesConcat(items[..j], [items[j]]);
    OneBase(items[j]);
    var x := startX + SnappedSum(font, script, Bases(items), n);
    assert NthBox(font, script, StartPen(startX), startY, items, j)
        == Some(Box(GetGlyph(font, script, items[j].cp).value, x, startY));
  }

  lemma OneBase(item: Item)
    requires item.Base?
    ensures Bases([item]) == [item]
  {
    assert [item][1..] == [] && Bases([]) == [];
  }

  // A mark's box is placed over the base before it, wherever that stands; over a base without a glyph it
  // is placed as over an empty box.
  lemma MarkStandsOver(font: EpdFontData, script: Script, text: seq<codepoint>, startX: int, startY: int, k: nat)
    requires KernValid(font.kern) && Enumerates(font.intervals, |font.glyph|)
    requires k < |Shape(font, script, text)| && Shape(font, script, text)[k].Mark?
    requires GetGlyph(font, script, Shape(font, script, text)[k].cp).Some? && Bases(Shape(font, script, text)[..k]) != []
    ensures var items := Shape(font, script, text);
            var bases, m := Bases(items), |Bases(items[..k])| - 1;
            var g, anchor := GetGlyph(font, script, items[k].cp).value, AnchorFor(items[k].cp);
            m < |bases| && match GetGlyph(font, script, bases[m].cp)
              case None =>
                NthBox(font, script, StartPen(startX), startY, items, k)
                == Some(Box(g, AnchorOver(anchor, startX + SnappedSum(font, script, bases, m), 0, 0, g.left, g.width),
                            startY - RaiseAboveBase(anchor, g.top, g.height, 0)))
              case Some(base) =>
                NthBox(font, script, StartPen(startX), startY, items, k)
                == Some(Box(g, AnchorOver(anchor, startX + SnappedSum(font, script, bases, m), base.left, base.width,
                                          g.left, g.width),
                            startY - RaiseAboveBase(anchor, g.top, g.height, base.top)))
  {
    hide KernValid, Enumerates, GetGlyph, Shape, SnappedSum, Bases, PenAfter, NextBaseX, AnchorOver, RaiseAboveBase, AnchorFor;
    var items := Shape(font, script, text);
    var bases, m := Bases(items), |Bases(items[..k])| - 1;
    ShapeIsPositive(font, script, text);
    BasesMembers(items);
    BasesBefore(items, k);
    MarksKeepPen(font, script, StartPen(startX), items[..k]);
    CursorIsSnappedSum(font, script, startX, bases, m);
    PenAppends(font, script, StartPen(startX), bases[..m], bases[m]);
    assert bases[..m] + [bases[m]] == bases[..m + 1];
  }

  // A mark with no base before it is placed over an empty box at the start.
  lemma LeadingMark(font: EpdFontData, script: Script, text: seq<codepoint>, startX: int, startY: int, k: nat)
    requires KernValid(font.kern) && Enumerates(font.intervals, |font.glyph|)
    requires k < |Shape(font, script, text)| && Shape(font, script, text)[k].Mark?
    requires GetGlyph(font, script, Shape(font, script, text)[k].cp).Some? && Bases(Shape(font, script, text)[..k]) == []
    ensures var items := Shape(font, script, text);
            var g, anchor := GetGlyph(font, script, items[k].cp).value, AnchorFor(items[k].cp);
            NthBox(font, script, StartPen(startX), startY, items, k)
            == Some(Box(g, AnchorOver(anchor, startX, 0, 0, g.left, g.width), startY - RaiseAboveBase(anchor, g.top, g.height, 0)))
  {
    hide KernValid, Enumerates, GetGlyph, Shape, AnchorOver, RaiseAboveBase, AnchorFor;
    MarksKeepPen(font, script, StartPen(startX), Shape(font, script, text)[..k]);
  }
}
