// Fixed-point helpers and combining-mark placement (lib/EpdFont/EpdFontData.h).
module FontMetrics {

  // ----- namespace fp4: four fractional bits -----

  const ONE_PIXEL := 16
  const HALF := 8

  function FromPixel(px: int): int {
    px * ONE_PIXEL
  }

  // Arithmetic shift right by four of fp + HALF: the floor of the division.
  function ToPixel(fp: int): int {
    (fp + HALF) / ONE_PIXEL
  }

  // Nearest pixel, ties upwards.
  lemma ToPixelNearest(fp: int)
    ensures -HALF < FromPixel(ToPixel(fp)) - fp <= HALF
    ensures forall px :: -HALF < FromPixel(px) - fp <= HALF ==> px == ToPixel(fp)
  {
  }

  lemma ToPixelInvertsFromPixel(px: int, fraction: int)
    requires -HALF <= fraction < HALF
    ensures ToPixel(FromPixel(px) + fraction) == px
  {
  }

  // ----- namespace combiningMark -----

  const MIN_GAP_PX := 1

  datatype Anchor = CenterRaised | CenterNative | RightNative | LeftNative

  function AnchorFor(cp: nat): Anchor {
    if cp == 0x05BC || cp == 0x05BA then CenterNative
    else if cp == 0x05C1 then RightNative
    else if cp == 0x05B9 || cp == 0x05C2 then LeftNative
    else CenterRaised
  }

  function AnchorShift(anchor: Anchor, baseWidth: nat, markWidth: nat): int {
    match anchor
    case LeftNative => 0
    case RightNative => baseWidth - markWidth
    case _ => baseWidth / 2 - markWidth / 2
  }

  function AnchorOver(anchor: Anchor, baseCursorPos: int, baseLeft: int, baseWidth: nat, markLeft: int, markWidth: nat): int {
    baseCursorPos + baseLeft + AnchorShift(anchor, baseWidth, markWidth) - markLeft
  }

  function AnchorOverRotated90CW(anchor: Anchor, baseCursorPos: int, baseLeft: int, baseWidth: nat,
                                 markLeft: int, markWidth: nat): int {
    baseCursorPos - baseLeft - AnchorShift(anchor, baseWidth, markWidth) + markLeft
  }

  function RaiseAboveBase(anchor: Anchor, markTop: int, markHeight: nat, baseTop: int): int {
    if anchor != CenterRaised then 0
    else if markTop - markHeight <= 0 then 0
    else
      var gap := markTop - markHeight - baseTop;
      if gap < MIN_GAP_PX then MIN_GAP_PX - gap else 0
  }

  // Where the mark's bitmap lands: on the base bitmap's left edge, right edge or centre (to within
  // half a pixel on either side).
  lemma AnchorsAlign(anchor: Anchor, cursor: int, baseLeft: int, baseWidth: nat, markLeft: int, markWidth: nat)
    ensures var markEdge := AnchorOver(anchor, cursor, baseLeft, baseWidth, markLeft, markWidth) + markLeft;
            var baseEdge := cursor + baseLeft;
            match anchor
            case LeftNative => markEdge == baseEdge
            case RightNative => markEdge + markWidth == baseEdge + baseWidth
            case _ => -1 <= (2 * markEdge + markWidth) - (2 * baseEdge + baseWidth) <= 1
  {
  }

  // The rotated placement mirrors the upright one about the base cursor.
  lemma RotationMirrors(anchor: Anchor, cursor: int, baseLeft: int, baseWidth: nat, markLeft: int, markWidth: nat)
    ensures AnchorOverRotated90CW(anchor, cursor, baseLeft, baseWidth, markLeft, markWidth) - cursor
         == cursor - AnchorOver(anchor, cursor, baseLeft, baseWidth, markLeft, markWidth)
  {
  }

  // The raise is the least one that clears the base's top by MIN_GAP_PX, for default marks that
  // sit wholly above the baseline; every other mark stays at its own height.
  lemma RaiseIsLeast(anchor: Anchor, markTop: int, markHeight: nat, baseTop: int, raise: nat)
    ensures RaiseAboveBase(anchor, markTop, markHeight, baseTop) >= 0
    ensures anchor == CenterRaised && markTop > markHeight ==>
              (markTop - markHeight + raise - baseTop >= MIN_GAP_PX
               <==> raise >= RaiseAboveBase(anchor, markTop, markHeight, baseTop))
    ensures anchor != CenterRaised || markTop <= markHeight ==> RaiseAboveBase(anchor, markTop, markHeight, baseTop) == 0
  {
  }

  // ----- which codepoints are treated as marks (lib/Utf8/Utf8.h) -----

  predicate IsCombiningMark(cp: nat) {
    || 0x0300 <= cp <= 0x036F
    || 0x1DC0 <= cp <= 0x1DFF
    || 0x20D0 <= cp <= 0x20FF
    || 0xFE20 <= cp <= 0xFE2F
  }

  // Marks are whole columns of sixteen codepoints: those of the diacritics (30..36), their supplement
  // (1DC..1DF), those for symbols (20D..20F) and the half marks (FE2).
  lemma MarksByColumn(cp: nat)
    ensures IsCombiningMark(cp)
       <==> cp / 16 in [0x30, 0x31, 0x32, 0x33, 0x34, 0x35, 0x36, 0x1DC, 0x1DD, 0x1DE, 0x1DF, 0x20D, 0x20E, 0x20F, 0xFE2]
  {
  }

  // The points with an anchor of their own: dagesh and holam haser in the centre, the shin dot on the right,
  // holam and the sin dot on the left.
  lemma HebrewAnchors(cp: nat)
    ensures AnchorFor(cp) == CenterNative <==> cp in [1468, 1466]
    ensures AnchorFor(cp) == RightNative <==> cp == 1473
    ensures AnchorFor(cp) == LeftNative <==> cp in [1465, 1474]
  {
  }

  // A mark whose bottom would touch its base is raised by just one pixel.
  lemma TouchingMarkIsRaised(markTop: int, markHeight: nat)
    ensures markTop > markHeight ==> RaiseAboveBase(CenterRaised, markTop, markHeight, markTop - markHeight) == 1
  {
  }

  // The position-sensitive Hebrew points are not among them, so wherever marks are recognised by
  // IsCombiningMark the default anchor is the only one that ever applies.
  lemma NativeAnchorsNeverApply(cp: nat)
    ensures IsCombiningMark(cp) ==> AnchorFor(cp) == CenterRaised
    ensures AnchorFor(cp) != CenterRaised ==> !IsCombiningMark(cp)
    ensures AnchorFor(0x05BC) == CenterNative && !IsCombiningMark(0x05BC)
  {
  }
}
