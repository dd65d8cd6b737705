# A verified model of the e-reader firmware

This project models, in Dafny, the parts of the firmware whose correctness rests on bookkeeping rather
than on hardware: the glyph cache of compressed fonts, text measurement, the reading-time ledger and its
persistence, the checksums and codecs, and the compiler of the translated strings. `dafny verify
dfyconfig.toml` checks all of it.

## How it is organised

**Fonts.** `PixelPacking` repacks row-aligned 2-bit pixels. `FontData` says what a well-formed compressed
font is and defines the bitmap of a glyph once and for all: inflate its group, cut its rows, pack its
pixels (`Reference`). `PagePlan`, `PageLayout` and `GlyphCache` are the prewarming and lookup of
`FontDecompressor`, on arrays and a class as in the source; `CacheRuns` shows that every lookup in every
run of the cache answers with the reference bitmap, whatever was prewarmed, cleared, or failed to
allocate, and what the result of prewarming says about a text. Inflating is a function from compressed bytes to the bytes the stream yields, so a group may be
broken or too short. `FontMetrics` and `TextMeasure` are the fixed-point, combining-mark, kerning,
ligature and bounds code.

**Reading statistics.** `ReadingDays` holds day lists, `Streaks` the batch and the incremental streak
computations against one definition on sets of days, `GoalStreaks` what is left of the incremental one when
days arrive in any order, `Books` the merging of duplicates, `MergedFigures` what it does to the figures of
the list as a whole and `CopyMerging` what becomes of the copies' paths, names and dates. `Ledger` states
the equation that every operation keeps: the aggregated time of a day is the unassigned legacy time plus
that of all books. `Clock` is the wall clock and the wrapping tick counter, `StatsDocument` the file
format with its migration, `Summary` the cached figures. `StoreSteps` says what
each call does to the values of the store, `StepMeanings` what that means for the caller, and `ReadingStats` is the store as a class with the fields of the
source; its invariant `Valid` covers the ledger equation, the session index, the cached
summary and the load-failure latch, and `Synced` ties a clean store to its file. `StatsRuns` follows whole
sessions and arbitrary sequences of all operations, with the state after each and the answer to each query. `SessionCounts` says which
reports of finished sessions are accepted, `Achievements` counts them, and `AchievementRuns` says which
achievements a run of reports unlocks. `SaveProtocol` is the
write-then-rename protocol as steps on two files, with a power loss possible after each step.

**Codecs and strings.** `Crc32` and `FontCacheHeader` treat the checksum of the flash font cache (the
CRC-32 of section 8 of RFC 1952) and what it detects. `Base64` is the encoder and decoder of the
simulator (section 4 of RFC 4648). `Utf8`, `StringTable`, `CppLiteral`, `CppRoundTrip` and
`CppTables` take a translation from the tables that hold it, through the C++ literals they are printed as,
to the lookup on the device; a text may hold escapes of its own, which then mean what they mean to the
compiler.

## Assumptions

* Fonts given to the cache are well formed (`FontData.WellFormed`): intervals number the glyphs in order,
  every glyph lies in one group, packed sizes are ceil(w*h/4), groups hold their members.
* Path normalisation, stable book ids, file extensions, the existence of files and the ignored paths are
  functions of a `Library` value; the tick counter, the clock, the settings, free memory and the faults of
  the file system come with each call in an `Env` value and may be anything.
* Removing and renaming a file are atomic; that a rename or a write can fail is part of the model.

## What the model shows to be false

* A header of the font cache altered in four consecutive bytes across an edge of the `headerCrc` field can
  stay valid. `FontCacheHeader.PatchedHeaderValid` gives such a header for each of the six windows, and
  `FontCacheHeader.DetectionIsExact` shows that those windows are the only ones.
* Obfuscating and recovering the empty string reports failure (`Base64.ObfuscationRoundTrip`).
* The anchors for Hebrew points are never used where marks are recognised by `utf8IsCombiningMark`, which
  does not include them (`FontMetrics.NativeAnchorsNeverApply`).
* A rename that fails after the old file has been removed loses both documents, a write cut short replaces a
  good file and reports success, and any save started before an interrupted one has been recovered deletes
  the only copy (`SaveProtocol.FailedRenameLosesEverything`, `SaveProtocol.ShortWriteReplacesGoodFile`,
  `SaveProtocol.WithoutRecoveryDocumentsAreLost`). `SaveProtocol.LossIsExact` gives the exact condition for
  every disk that holds a document. The store does start such a save: when the recovering rename fails at
  boot it is not latched, and its next save deletes the copy (`StatsRuns.UnrecoveredFileIsLost`).
* Recovery can adopt an incomplete file, which then fails to load and latches the store: after an interrupted
  first save (`SaveProtocol.InterruptedFirstSaveIsAdoptedTorn`) or a write cut short;
  `SaveProtocol.TornAdoptedExactly` gives the exact condition for every disk and save.
* The migration keeps the larger of the two figures of a day only until ignored books are removed, right
  after it. `StoreSteps.MigratedTimeCanVanish` gives a document whose day vanishes, `StoreSteps.LoadedTime`
  the exact condition: the day keeps its time if and only if no ignored book has read on it.
* A store does not always read back as it was saved: a session on a path that normalises to nothing makes a
  book that the loader drops (`StoreSteps.OpenedIsStorable`). `StatsDocument.DocumentRoundTrip` gives the
  exact conditions for books, log and times.
* The incremental streak tracker goes wrong when goal-met days arrive out of order
  (`Streaks.OutOfOrderDisagrees`; `Streaks.OrderMatters` is an input for which it counts a day twice). All its
  fields are right at every moment if and only if they arrive in order (`Streaks.TrackerIsExact`); the number
  of days alone is right if and only if the reports of each day form one block (`GoalStreaks.CountIsExact`),
  the longest streak alone if and only if the days of some longest run came one after the other
  (`GoalStreaks.StreakIsExact`).
* A session is not always counted once. Only the serial processed last is remembered, so reports of one
  serial that do not form one block are counted again (`SessionCounts.SerialsCountOnce` is exact). Every
  session counts once if and only if each report shows the serial of the one before it exactly when its
  session has been reported before (`SessionCounts.SessionsCountOnce`, for any reports). The statistics store
  starts its serials over when it gives its memory back or adopts a file; for sessions reported once each
  that does harm if and only if it happens right after a session with serial 1
  (`SessionCounts.RestartsAreHarmless`), and then a new session is dropped
  (`Achievements.RestartedSessionIsDropped`).
* A forced line break can fall inside an escape of the printed strings, and the literals then compile to
  something longer or not at all; `CppRoundTrip.EntryRoundTrip` is exact for every text. It happens in a hex
  escape after 110 or 111 letters without a space (`CppRoundTrip.ForcedCutSpoils`) and between two printed
  backslashes after 111 of them (`CppRoundTrip.PairCutSpoils`).
* Strings with escapes of their own are shorter once compiled than their offsets say, so that later strings
  are looked up in the wrong place (`CppTables.EscapeMovesTheRest`), and a string that ends in a backslash
  swallows its separator (`CppTables.TrailingBackslashSwallowsSeparator`); the offsets fit if and only if there
  are no such strings (`CppTables.OffsetsFit`).

## Model

| member | source | states |
|---|---|---|
| `PixelPacking.CompactSingleGlyph` | lib/EpdFont/FontDecompressor.cpp:105-127 | the destination region becomes the packed form of the source glyph, ceil(w*h/4) bytes, and every byte outside it keeps its value, on the copying path and in the general loop alike |
| `PixelPacking.PackRows` | lib/EpdFont/FontDecompressor.cpp:113-126 | the two loops and the final partial byte together write exactly the packed pixels |
| `PixelPacking.PackRow` | lib/EpdFont/FontDecompressor.cpp:115-125 | one row advances the pending byte and bit count by its pixels, storing each byte as it fills |
| `PixelPacking.CopyBytes` | lib/EpdFont/FontDecompressor.cpp:109-112 | a region is copied and nothing else changes |
| `PixelPacking.PackingPreservesPixels` | lib/EpdFont/FontDecompressor.cpp:117 | 2-bit pixel y*w+x of the packed glyph is pixel (y,x) of the row-aligned one, for every size |
| `PixelPacking.PackingPadsWithZero` | lib/EpdFont/FontDecompressor.cpp:126 | the unused pixels of the last byte are zero |
| `PixelPacking.WholeByteRowsNeedNoPacking` | lib/EpdFont/FontDecompressor.cpp:109-112 | when the width is a multiple of four, packing is the identity, so the copying path agrees with the loop |
| `FontData.FindGlyphIndex` | lib/EpdFont/FontDecompressor.cpp:219-243 | the binary search finds the glyph a scan of the intervals finds, or -1 |
| `FontData.GlyphIndexValid` | lib/EpdFont/FontDecompressor.cpp:219-243 | with intervals that number the glyphs in order, every index found is an index into the glyph table |
| `FontData.GlyphIndexInjective` | lib/EpdFont/FontDecompressor.cpp:237-238 | two codepoints with the same glyph index are the same codepoint |
| `FontData.GetGroupIndex` | lib/EpdFont/FontDecompressor.cpp:44-58 | the mapping table when there is one, else the first group whose range holds the glyph |
| `FontData.GroupMembership` | lib/EpdFont/FontDecompressor.cpp:44-58 | in a well-formed font a glyph belongs to a group exactly when the computed group is that group |
| `FontData.FirstGroupExact` | lib/EpdFont/FontDecompressor.cpp:51-57 | the group found in a contiguous font is the first whose range of indices holds the glyph, and none when no range does |
| `FontData.InflateExact` | lib/EpdFont/FontDecompressor.cpp:60-74 | inflating a group reads the compressed bytes its offset and size name, cuts the output at its uncompressed size and yields nothing when the stream is short |
| `FontData.GetAlignedOffset` | lib/EpdFont/FontDecompressor.cpp:78-103 | the offset is the sum of the row-aligned sizes of the earlier members of the group, for both kinds of font |
| `FontData.GlyphRegionInGroup` | lib/EpdFont/FontDecompressor.cpp:78-103 | the rows of a glyph lie inside the inflated group and clear of the rows of every later member |
| `FontData.Reference` | lib/EpdFont/FontDecompressor.cpp:165-214 | the simple definition of a bitmap (inflate the group afresh, cut, pack) yields as many bytes as the glyph declares |
| `FontData.ReferencePixels` | lib/EpdFont/FontDecompressor.cpp:211-214 | each pixel of the reference bitmap is the pixel of the inflated group at the row and column of the glyph |
| `PagePlan.CollectTextGlyphs` | lib/EpdFont/FontDecompressor.cpp:255-285 | the glyphs of the text, without repetition, in order of first appearance, cut off at the cap |
| `PagePlan.AddLigatureGlyphs` | lib/EpdFont/FontDecompressor.cpp:287-322 | the output of every ligature whose inputs are both present is added, up to the cap |
| `PagePlan.NeededGlyphsListed` | lib/EpdFont/FontDecompressor.cpp:255-322 | the list has no repetitions, only glyphs of the font, and respects the cap |
| `PagePlan.NeededGlyphsComplete` | lib/EpdFont/FontDecompressor.cpp:261-285 | below the cap no glyph of the text is missing |
| `PagePlan.LigaturesExact` | lib/EpdFont/FontDecompressor.cpp:289-321 | one pass over the pairs, in order: below the cap a glyph is in the list exactly if it was before or a pair adds it, both of whose inputs are listed when it is looked at |
| `PagePlan.LigaturesListed` | lib/EpdFont/FontDecompressor.cpp:287-322 | below the cap, for every listed pair whose two inputs are glyphs of the text, the output is in the list when the font has it |
| `PagePlan.OnlyNeeded` | lib/EpdFont/FontDecompressor.cpp:255-322 | below the cap, every glyph in the list is one of the text or the output of a listed pair whose two inputs are in the list |
| `PagePlan.TextGlyphsOnly` | lib/EpdFont/FontDecompressor.cpp:261-285 | the first loop adds glyphs of the text and no others |
| `PagePlan.TextGlyphsGrow` | lib/EpdFont/FontDecompressor.cpp:261-285 | more text only appends glyphs, so the order is that of first appearance |
| `PagePlan.CollectGroups` | lib/EpdFont/FontDecompressor.cpp:326-350 | the byte total of the glyphs and the distinct groups they need |
| `PagePlan.NeededGroups` | lib/EpdFont/FontDecompressor.cpp:328-349 | the groups are distinct, exist, and cover every glyph unless the cap was reached |
| `PagePlan.InsertionSort` | lib/EpdFont/FontDecompressor.cpp:376-385 | the in-place sort leaves the table that repeated insertion gives |
| `PagePlan.InsertInPlace` | lib/EpdFont/FontDecompressor.cpp:378-384 | one round of the sort inserts the next entry among the sorted ones and leaves the rest alone |
| `PagePlan.SortFresh` | lib/EpdFont/FontDecompressor.cpp:371-385 | the sorted table has the same entries, strictly increasing glyph indices, and the same total of bytes still to be extracted |
| `PagePlan.FindEntry` | lib/EpdFont/FontDecompressor.cpp:145-160 | the binary search finds the entry of a glyph exactly when there is one |
| `PageLayout.AlignMapped` | lib/EpdFont/FontDecompressor.cpp:387-427 | in the single pass over a frequency-grouped font, every needed entry ends with the offset that getAlignedOffset gives |
| `PageLayout.AlignContiguous` | lib/EpdFont/FontDecompressor.cpp:428-455 | the same for fonts with contiguous groups |
| `PageLayout.AlignRange` | lib/EpdFont/FontDecompressor.cpp:430-453 | one group range sets the offsets of its own entries and of no others |
| `PageLayout.DecompressGroup` | lib/EpdFont/FontDecompressor.cpp:60-74 | success exactly when the stream yields as many bytes as the group declares, and then the buffer holds them |
| `PageLayout.CutFrom` | lib/EpdFont/FontDecompressor.cpp:488 | the precomputed offset is where the reference definition cuts |
| `GlyphCache.ExtractAll` | lib/EpdFont/FontDecompressor.cpp:457-494 | after all groups every extracted entry serves its reference bitmap, regions are pairwise disjoint and inside the buffer, and the missed count is that of the groups left out |
| `GlyphCache.NothingLeftOut` | lib/EpdFont/FontDecompressor.cpp:459-499 | the count of groups left out is 0 exactly when every glyph of every needed group is on the page |
| `GlyphCache.FontDecompressor.ClearCache` | lib/EpdFont/FontDecompressor.cpp:21-24 | no page slot and no hot group remain |
| `GlyphCache.FontDecompressor.FreePageBuffer` | lib/EpdFont/FontDecompressor.cpp:26-33 | all page slots are gone, the hot group stays |
| `GlyphCache.FontDecompressor.FreeHotGroup` | lib/EpdFont/FontDecompressor.cpp:35-42 | the hot group is gone, the page slots stay |
| `GlyphCache.FontDecompressor.GetBitmap` | lib/EpdFont/FontDecompressor.cpp:131-215 | by whichever route, a bitmap returned is the reference bitmap byte for byte, none is returned only if the group does not inflate or the glyph has no pixels, and a page hit touches neither the hot group nor any page buffer |
| `GlyphCache.FontDecompressor.LookUpPage` | lib/EpdFont/FontDecompressor.cpp:140-162 | a hit exactly when the first slot of the font holds an extracted entry, and then the reference bitmap |
| `GlyphCache.FontDecompressor.FromGroup` | lib/EpdFont/FontDecompressor.cpp:164-214 | the hot-group and miss routes return the reference bitmap of the glyph from the scratch buffer |
| `GlyphCache.FontDecompressor.HaveHotGroup` | lib/EpdFont/FontDecompressor.cpp:172-200 | on success the hot group is a fresh inflate of the group asked for, also when it was there already |
| `GlyphCache.FontDecompressor.LoadHotGroup` | lib/EpdFont/FontDecompressor.cpp:175-197 | the hot group is replaced, or there is none when the group fails to inflate |
| `GlyphCache.FontDecompressor.GrowScratch` | lib/EpdFont/FontDecompressor.cpp:202-209 | the scratch buffer grows to the size needed and never shrinks |
| `GlyphCache.FontDecompressor.PrewarmCache` | lib/EpdFont/FontDecompressor.cpp:245-500 | at most one slot is added and earlier ones are untouched; the new table holds exactly the glyphs needed, the result is the number of groups left out (-1 when all slots are taken, the number of glyphs when the slot could not be allocated), and the cache stays valid under failing allocations |
| `GlyphCache.NewSlot` | lib/EpdFont/FontDecompressor.cpp:354-385 | a fresh buffer of the total size and a sorted table with nothing extracted |
| `GlyphCache.NoReference` | lib/EpdFont/FontDecompressor.cpp:177-193 | when a group yields nothing, its glyphs have no bitmap or no pixels |
| `CacheRuns.Run` | lib/EpdFont/FontDecompressor.cpp:131-500 | in every run of prewarm, lookup and clear over any number of well-formed fonts, every lookup is answered with the reference bitmap |
| `CacheRuns.PrewarmText` | lib/EpdFont/FontDecompressor.cpp:245-500 | for a font without a slot and below the limit on groups the result is 0 if and only if every glyph needed for the text is on the page; below the limit on glyphs every glyph of the text, and the ligature of every listed pair of them that the font has, is then served from there |
| `FontMetrics.ToPixelNearest` | lib/EpdFont/EpdFontData.h:21-27 | toPixel is the nearest pixel, ties upwards, and the only such pixel |
| `FontMetrics.ToPixelInvertsFromPixel` | lib/EpdFont/EpdFontData.h:23-27 | toPixel undoes fromPixel, and ignores less than half a pixel |
| `FontMetrics.AnchorsAlign` | lib/EpdFont/EpdFontData.h:65-83 | a mark lands on the left edge, right edge or centre of its base, the centre to within half a pixel |
| `FontMetrics.RotationMirrors` | lib/EpdFont/EpdFontData.h:85-91 | the rotated placement is the mirror image of the upright one about the base cursor |
| `FontMetrics.RaiseIsLeast` | lib/EpdFont/EpdFontData.h:100-109 | the raise is the least that leaves one pixel between mark and base, and zero for marks that are not raised |
| `FontMetrics.NativeAnchorsNeverApply` | lib/Utf8/Utf8.h:105-110 | no codepoint with a native anchor is recognised as a combining mark, so callers that test for marks first never use those anchors |
| `FontMetrics.MarksByColumn` | lib/Utf8/Utf8.h:105-110 | the combining marks are the fifteen columns of sixteen codepoints that make up four Unicode blocks |
| `FontMetrics.HebrewAnchors` | lib/EpdFont/EpdFontData.h:50-63 | five Hebrew points have anchors of their own, each its own; every other codepoint is centred and raised |
| `FontMetrics.TouchingMarkIsRaised` | lib/EpdFont/EpdFontData.h:100-109 | a mark that stands directly on its base is raised by one pixel |
| `TextMeasure.FindKeyExact` | lib/EpdFont/EpdFont.cpp:119-126 | the exact-key lookup finds a key of a sorted table exactly when it is there |
| `TextMeasure.KernClassExact` | lib/EpdFont/EpdFont.cpp:111-129 | a listed codepoint gets its class, any other none |
| `TextMeasure.KerningExact` | lib/EpdFont/EpdFont.cpp:131-145 | for any entries of the sorted class tables that list the two resolved codepoints, neither of them breakable CJK and both classes nonzero, the kern is the element in the row of the left class and the column of the right one |
| `TextMeasure.UnlistedIsNotKerned` | lib/EpdFont/EpdFont.cpp:131-145 | the kern is 0 when either codepoint is unlisted, has class 0 or is breakable CJK, and when there is no matrix |
| `TextMeasure.BeyondClassTables` | lib/EpdFont/EpdFont.cpp:111-114 | codepoints beyond 16 bits and empty tables have no class |
| `TextMeasure.LigatureExact` | lib/EpdFont/EpdFont.cpp:147-172 | a ligature is found exactly for the pairs listed; packing the pair into one key loses nothing |
| `TextMeasure.NoLigatureBeyond16Bits` | lib/EpdFont/EpdFont.cpp:147-157 | a codepoint beyond 16 bits, before or after remapping, forms no ligature, although its packed key could equal a listed one |
| `TextMeasure.UpperBoundFinds` | lib/EpdFont/EpdFont.cpp:197-207 | the lookup used for measuring and the binary search used for prewarming find the same glyph |
| `TextMeasure.GlyphExact` | lib/EpdFont/EpdFont.cpp:192-230 | the glyph measured is the font's own for the remapped codepoint, else what the miss handler finds, else the same for U+FFFD, and nothing when that is missing too |
| `TextMeasure.ApplyLigatures` | lib/EpdFont/EpdFont.cpp:174-190 | the loop joins as the greedy definition does and leaves the text position after what it took |
| `TextMeasure.LigatedIsMaximal` | lib/EpdFont/EpdFont.cpp:178-188 | what remains cannot be joined any further |
| `TextMeasure.ShapeFirst` | lib/EpdFont/EpdFont.cpp:50-62 | every codepoint is drawn once: a mark as it is, a base together with the codepoints that join onto it |
| `TextMeasure.ShapeWithoutLigatures` | lib/EpdFont/EpdFont.cpp:50-62 | in a font without ligatures the items are the codepoints one by one, each a mark or a base |
| `TextMeasure.GetTextBounds` | lib/EpdFont/EpdFont.cpp:34-100 | the loop computes the bounds of the shaped text as the fold over its items defines them |
| `TextMeasure.MarksKeepPen` | lib/EpdFont/EpdFont.cpp:92-98 | combining marks never move the pen |
| `TextMeasure.BaseStandsAt` | lib/EpdFont/EpdFont.cpp:60-98 | for any text: the box measured for a base is that of its glyph, at the start plus the snapped spacings of the pairs of bases before it, wherever on the line they are and whatever marks stand between them |
| `TextMeasure.BasesStandApart` | lib/EpdFont/EpdFont.cpp:60-98 | the distance between two bases is the sum of the snapped spacings of the pairs from one to the other |
| `TextMeasure.LeadingMark` | lib/EpdFont/EpdFont.cpp:38-42 | a mark with no base before it is placed over an empty box at the start point |
| `TextMeasure.MarkStandsOver` | lib/EpdFont/EpdFont.cpp:56-90 | for any text: the box of a mark is anchored over the base before it, wherever that stands, and raised clear of it; over a base without a glyph it is placed as over an empty box |
| `TextMeasure.DriftIsBounded` | lib/EpdFont/EpdFontData.h:12-15 | the snapped sum differs from the exact fixed-point sum by at most half a pixel a step |
| `TextMeasure.TextBoundsTranslate` | lib/EpdFont/EpdFont.cpp:34-100 | measuring from another start point moves the bounds by the same amount and changes nothing else |
| `TextMeasure.BoundsAreHull` | lib/EpdFont/EpdFont.cpp:87-90 | the bounds contain the start point and every glyph box, and each side is touched |
| `Crc32.Crc32Update` | lib/EpdFont/SdCardFontCacheFormat.h:25-34 | the nested loop computes the bitwise CRC-32 recurrence |
| `Crc32.CrcConcat` | lib/EpdFont/SdCardFontCacheFormat.h:25-34 | the CRC of a concatenation continues from the state after its first part |
| `Crc32.CrcInjectiveInState` | lib/EpdFont/SdCardFontCacheFormat.h:29-31 | fixed data never merges two states |
| `Crc32.BitStepsLinear` | lib/EpdFont/SdCardFontCacheFormat.h:30 | any number of bit steps is linear over exclusive or |
| `Crc32.FourBytes` | lib/EpdFont/SdCardFontCacheFormat.h:27-32 | four bytes act as one 32-bit word entered at once |
| `Crc32.WindowInjective` | lib/EpdFont/SdCardFontCacheFormat.h:25-34 | from a fixed state, different windows of up to four bytes have different CRCs |
| `Crc32.BurstDetected` | lib/EpdFont/SdCardFontCacheFormat.h:25-34 | two strings that differ only inside four consecutive bytes have the same CRC only if they are equal |
| `Crc32.KnownChecksums` | lib/EpdFont/SdCardFontCacheFormat.h:25-40 | with the initial and final exclusive or of the header, the checksum of the one byte "a" is 0xE8B7BE43, its CRC-32 of RFC 1952 |
| `FontCacheHeader.DamageDetected` | lib/EpdFont/SdCardFontCacheFormat.h:36-46 | a valid header altered inside a window of at most four bytes that does not straddle an edge of the headerCrc field is rejected |
| `FontCacheHeader.FieldsExact` | lib/EpdFont/SdCardFontCacheFormat.h:42-46 | byte by byte: magic, version 1, header size 156, a payload size between 1 and the capacity, and a NUL among the last 128 bytes |
| `FontCacheHeader.AdmittedRangeFits` | lib/EpdFont/SdCardFontCacheFormat.h:42-50 | a range admitted by the payload size of a valid header lies inside the capacity |
| `FontCacheHeader.CrcLinear` | lib/EpdFont/SdCardFontCacheFormat.h:25-34 | the CRC is linear in state and data together |
| `FontCacheHeader.SilentChange` | lib/EpdFont/SdCardFontCacheFormat.h:36-40 | a change that stored and computed checksum take on alike goes unnoticed |
| `FontCacheHeader.PatchedHeaderValid` | lib/EpdFont/SdCardFontCacheFormat.h:42-46 | for each straddling window, a concrete valid header and a four-byte change inside the window that leaves it valid |
| `FontCacheHeader.DetectionIsExact` | lib/EpdFont/SdCardFontCacheFormat.h:36-46 | every alteration inside a four-byte window is detected if and only if the window does not straddle an edge of the field |
| `FontCacheHeader.PayloadRangeExact` | lib/EpdFont/SdCardFontCacheFormat.h:48-50 | the test holds exactly when the end of the range, computed without wrap-around, is inside the payload |
| `Base64.Base64Encode` | simulator/missing_symbols.cpp:83-98 | the loop produces the letters of the input cut into sextets, padded to a multiple of four (section 4 of RFC 4648) |
| `Base64.Base64Decode` | simulator/missing_symbols.cpp:100-128 | success exactly when everything before the padding is white space or letters, and then the bytes the sextets hold, with an accumulator that is never masked |
| `Base64.BuildTable` | simulator/missing_symbols.cpp:101-107 | the table gives the position of every letter and -1 for every other byte |
| `Base64.LowBits` | simulator/missing_symbols.cpp:120-124 | bits that wrap out of the 32-bit accumulator are never read |
| `Base64.BytesOfSextets` | simulator/missing_symbols.cpp:91-95 | cutting bytes into sextets and joining them again loses nothing |
| `Base64.RoundTrip` | simulator/missing_symbols.cpp:83-128 | decoding an encoding gives back the bytes; its length is 4*ceil(n/3) |
| `Base64.KnownAnswers` | simulator/missing_symbols.cpp:83-98 | the encodings of "f", "fo", "foo" and "foob" are those of section 10 of RFC 4648, and the last two letters of the alphabet are + and / |
| `Base64.SpaceIgnored` | simulator/missing_symbols.cpp:112-117 | white space inserted anywhere, before the padding or after it, changes nothing |
| `Base64.ObfuscateToBase64` | simulator/missing_symbols.cpp:134-137 | the encoding, and nothing for nothing |
| `Base64.DeobfuscateFromBase64` | simulator/missing_symbols.cpp:138-150 | success exactly for a non-empty well-formed input |
| `Base64.ObfuscationRoundTrip` | simulator/missing_symbols.cpp:134-150 | the wrappers give back every plaintext, and report success exactly when it is not empty |
| `ReadingDays.NormalizeReadingDays` | src/ReadingStatsStore.cpp:68-84 | sorting and merging neighbours gives the list with each day once |
| `ReadingDays.NormalizedMeans` | src/ReadingStatsStore.cpp:68-84 | the result is strictly sorted and keeps every day and the time of every day |
| `ReadingDays.SortedUnique` | src/ReadingStatsStore.cpp:68-84 | a strictly sorted list is determined by its days and their times |
| `ReadingDays.SameMultisetNormalized` | src/ReadingStatsStore.cpp:69-71 | the order of the input, and how the sort treats ties, make no difference |
| `ReadingDays.LowerBoundDay` | src/ReadingStatsStore.cpp:91-93 | the place of the first entry not before a day |
| `ReadingDays.AddReadingToDays` | src/ReadingStatsStore.cpp:86-99 | an entry is raised or inserted in its place; day 0 and no time are ignored |
| `ReadingDays.AddedMeans` | src/ReadingStatsStore.cpp:86-99 | exactly the one day gains exactly the time, and the list stays strictly sorted |
| `ReadingDays.CreditDay` | src/ReadingStatsStore.cpp:371-380 | creating an entry if need be and adding to it |
| `ReadingDays.UpsertTotal` | src/ReadingStatsStore.cpp:360-369 | crediting a day changes the time of that day and of no other |
| `Streaks.MaxStreak` | src/ReadingStatsStore.cpp:637-647 | the scan yields the length of the longest run of consecutive goal-met days |
| `Streaks.CurrentStreak` | src/ReadingStatsStore.cpp:649-662 | the run ending at the latest goal-met day if that day is the reference day or the one before it, else 0 |
| `Streaks.LatestRun` | src/ReadingStatsStore.cpp:654-661 | counting backwards yields the run that ends at the latest day |
| `Streaks.LongestRunUnique` | src/ReadingStatsStore.cpp:637-647 | only one number is the longest run |
| `Streaks.CurrentStreakUnique` | src/ReadingStatsStore.cpp:649-662 | only one number is the current streak |
| `Streaks.RunIsMaximal` | src/ReadingStatsStore.cpp:640-647 | a run counted is a block of consecutive days that cannot be extended backwards |
| `Streaks.TrackerMatchesBatch` | src/AchievementsStore.cpp:436-450 | fed goal-met days in order from zero, the tracker holds the number of goal days, their longest run and the run at the last one, whatever other days come between |
| `Streaks.TrackerIsExact` | src/AchievementsStore.cpp:436-450 | the tracker agrees with the batch computation at every moment if and only if the goal-met days come in order |
| `Streaks.OutOfOrderDisagrees` | src/AchievementsStore.cpp:436-450 | the moment a goal-met day comes after a later one, the tracker is wrong |
| `GoalStreaks.CountIsExact` | src/AchievementsStore.cpp:436-450 | for goal-met days in any order the number of days is never too small, and right if and only if the reports of each day form one block |
| `GoalStreaks.StreakIsClimb` | src/AchievementsStore.cpp:440-450 | for any order, the longest streak held is the highest climb, report by report, from a day to the same or the next |
| `GoalStreaks.StreakIsExact` | src/AchievementsStore.cpp:440-450 | so it is never longer than the longest run of goal-met days, and equal if and only if the days of some longest run came one after the other |
| `Streaks.RefreshedThenTracked` | src/AchievementsStore.cpp:379-399 | tracking on from a refreshed state agrees with the batch again from the first goal day not before the reference day |
| `Books.DedupedOrdered` | src/ReadingStatsStore.cpp:105-110 | the list ends strictly ordered by character codes, so each string is in it once |
| `Books.DedupedMembers` | src/ReadingStatsStore.cpp:105-110 | and it holds exactly the non-empty members |
| `Books.NormalizeBooks` | src/ReadingStatsStore.cpp:259-275 | normalising each book and merging later duplicates into the first, with erasure during the loop, gives the merged list |
| `Books.MergeDuplicates` | src/ReadingStatsStore.cpp:264-274 | the inner loop merges exactly the books with the id of the primary and keeps the others in order |
| `Books.MergedGathers` | src/ReadingStatsStore.cpp:187-246 | any figure that merging two copies combines is, for each survivor, gathered from all the copies |
| `Books.MergedIds` | src/ReadingStatsStore.cpp:267-269 | no id is lost and none appears |
| `Books.MergedDistinct` | src/ReadingStatsStore.cpp:264-274 | afterwards all non-empty ids are distinct |
| `Books.MergingConserves` | src/ReadingStatsStore.cpp:224-245 | per id, reading time, sessions and the time of every day are the sums over the copies |
| `Books.MergingCombinesMarks` | src/ReadingStatsStore.cpp:226-243 | completed is the disjunction, lastReadAt and lastSessionMs the maximum, firstReadAt and completedAt the earliest known |
| `Books.MergedDays` | src/ReadingStatsStore.cpp:244-245 | the day lists of all survivors are strictly sorted |
| `CopyMerging.SurvivorMergesCopies` | src/ReadingStatsStore.cpp:264-274 | each survivor is the merge, in the order of the list, of all books with its id |
| `CopyMerging.PathsSurvive` | src/ReadingStatsStore.cpp:195-203 | the known paths of a survivor are, besides the first copy's known ones, the path and known paths of every later copy that are not empty, and no others |
| `CopyMerging.DatesOfCopies` | src/ReadingStatsStore.cpp:226-237 | firstReadAt and completedAt are 0 exactly when all copies have 0, else the least nonzero one; lastReadAt and lastSessionMs are the largest |
| `CopyMerging.NamesOfCopies` | src/ReadingStatsStore.cpp:211-222 | title, author, cover and chapter each come from some copy, are empty only when all copies have none, and are those of the copy read last when that has any |
| `CopyMerging.PathOfCopies` | src/ReadingStatsStore.cpp:205-209 | the path is that of the copy read last, or, when its file is missing, that of the first later copy whose file exists |
| `CopyMerging.ProgressOfCopies` | src/ReadingStatsStore.cpp:238-243 | progress is the furthest of the copy read last and of those after it in the list |
| `CopyMerging.NormalizedPaths` | src/ReadingStatsStore.cpp:248-257 | before merging, the normalised path of a book joins its known paths, and names, progress and dates stay |
| `CopyMerging.NormalizingKeepsNames` | src/ReadingStatsStore.cpp:172-275 | all of this for the list given to normalizeBooks: paths, dates, names, current path and progress of every survivor, from its normalised copies |
| `MergedFigures.NormalizingConserves` | src/ReadingStatsStore.cpp:172-275 | for the list given to normalizeBooks: time, sessions and the time of each day of a survivor are the sums over all its books with that stable id, resolved ids included |
| `MergedFigures.NormalizingCombinesMarks` | src/ReadingStatsStore.cpp:172-275 | a survivor is completed if and only if one of those books was, and last read when the latest of them was |
| `MergedFigures.StableIdsSurvive` | src/ReadingStatsStore.cpp:172-275 | the stable ids of the list are exactly the ids of the survivors, each non-empty one once |
| `Ledger.RebuildAggregated` | src/ReadingStatsStore.cpp:531-540 | the rebuilt list is strictly sorted, without day 0, and holds for every other day the legacy time plus that of all books, for unsorted and repeated entries alike |
| `Ledger.RebuiltIsLedger` | src/ReadingStatsStore.cpp:531-540 | with ordered books the rebuilt list satisfies the ledger equation for every day |
| `Ledger.LedgerDeterminesTimes` | src/ReadingStatsStore.cpp:531-540 | legacy days and books determine the aggregated time of every day |
| `Ledger.CreditKeepsLedger` | src/ReadingStatsStore.cpp:467-468 | crediting a book and the aggregate alike keeps the equation |
| `Ledger.MovingKeepsLedger` | src/ReadingStatsStore.cpp:444-446 | reordering books keeps it |
| `Ledger.ErasingUnreadKeepsLedger` | src/ReadingStatsStore.cpp:873-887 | erasing a book without days needs no rebuild |
| `Ledger.NewBookKeepsLedger` | src/ReadingStatsStore.cpp:293-303 | a new book in front keeps it |
| `Ledger.NormalizeBooksKeepsTime` | src/ReadingStatsStore.cpp:259-275 | normalising and merging books leaves the sum over all books of every day as it was |
| `Ledger.RemoveIgnored` | src/ReadingStatsStore.cpp:542-548 | the loop drops the ignored books and keeps the others in order |
| `Ledger.KeptMembers` | src/ReadingStatsStore.cpp:544-546 | exactly the ignored books are gone |
| `Ledger.KeptTime` | src/ReadingStatsStore.cpp:542-548 | a day keeps its time if and only if no ignored book has read on it |
| `Ledger.TakeOff` | src/ReadingStatsStore.cpp:948-961 | time is taken off a day exactly when the day and the book have that much; an emptied day is erased |
| `Ledger.ReducedTotal` | src/ReadingStatsStore.cpp:956-959 | only that day loses the time |
| `Clock.ValidDaysAreNotZero` | src/util/TimeUtils.cpp:155-164 | a timestamp is valid exactly when its local day is not 0, whatever the offset |
| `Clock.UtcDayHoldsTime` | src/util/TimeUtils.cpp:155-164 | at UTC the day of a valid time t is the d with 86400*d <= t < 86400*(d+1) |
| `Clock.FurtherEastIsLater` | src/util/TimeUtils.cpp:15-19 | one encoded step further east has the day of the instant 900 seconds later |
| `Clock.LocalDayHoldsTime` | src/util/TimeUtils.cpp:155-164 | so at every offset the day is the one whose seconds hold the local time |
| `Clock.UnknownOffsetIsUtc` | src/util/TimeUtils.cpp:15-19 | codes above 104 count as UTC |
| `Clock.DaysNeverDecrease` | src/util/TimeUtils.cpp:155-164 | later times never fall on earlier days |
| `Clock.ValidSince2024` | src/util/TimeUtils.cpp:11 | clocks are valid from the first second of 2024 in the earliest time zone |
| `Clock.ElapsedIsExact` | src/ReadingStatsStore.cpp:716-718 | unsigned 32-bit subtraction measures every real gap below 2^32 ms exactly, across wrap-around |
| `Clock.GetLatestKnownTimestamp` | src/ReadingStatsStore.cpp:382-396 | the loop yields the latest of the last known time and all valid times of the books |
| `Clock.LatestCoversBook` | src/ReadingStatsStore.cpp:384-393 | no valid time of any book is later |
| `Clock.ReferenceTimestamp` | src/ReadingStatsStore.cpp:398-414 | the result is 0 or valid, and is the clock itself when that is valid |
| `Clock.ReferenceIsBest` | src/ReadingStatsStore.cpp:398-414 | 0 only when no source is valid, and never before a book was last read unless the last known time says so |
| `Clock.ReferenceOrder` | src/ReadingStatsStore.cpp:398-414 | the clock comes before the last known time, that before the times of the books, and those before that of the book |
| `StatsDocument.ReadDocument` | src/JsonSettingsIO.cpp:146-250 | for every format version: books, sessions and legacy days as read, when a rewrite is due, and for every nonzero day the aggregated time the document means |
| `StatsDocument.MigrationTakesMaximum` | src/JsonSettingsIO.cpp:243-247 | before version 6 the time of a day becomes the larger of the legacy total and the sum over the books |
| `StatsDocument.LegacySourceExact` | src/JsonSettingsIO.cpp:184-192 | which list of an old document counts: the other one in version 1, from version 2 the legacy one, but before version 6 only if it names a day; and its time for each day |
| `StatsDocument.BookOfExact` | src/JsonSettingsIO.cpp:221-236 | a book of version 1 has no days of its own, a later one the time it lists for each day; no other field depends on the version |
| `StatsDocument.NeedsIdsExact` | src/JsonSettingsIO.cpp:237-239 | an id may be missing exactly when some book read has none, or there is any in versions 1 and 2 |
| `StatsDocument.DocumentExact` | src/JsonSettingsIO.cpp:83-139 | files are written in format version 6 with every book, day and session in its place |
| `StatsDocument.ConvertLegacyReadingDays` | src/ReadingStatsStore.cpp:483-529 | what remains unassigned of a day is its legacy time less the time of the books, never below zero, for unsorted and repeated entries alike |
| `StatsDocument.ReadBooks` | src/JsonSettingsIO.cpp:207-241 | books without a path are dropped, version 1 days are not read, and a rewrite is due exactly when an id may be missing |
| `StatsDocument.AppendReadingDays` | src/JsonSettingsIO.cpp:167-182 | entries with an ordinal are appended in order, bare ordinals without time |
| `StatsDocument.ReadSessionLog` | src/JsonSettingsIO.cpp:194-202 | sessions without day or time are dropped |
| `StatsDocument.DocumentRoundTrip` | src/JsonSettingsIO.cpp:83-250 | any store saved and read back has its legacy days, its books that have a path and its sessions of some day and length; it has the same books if and only if each has a path and no empty known path, the same log if and only if every entry has day and length, and the same time on a day if and only if no book without a path has read on it |
| `StatsDocument.ReadBackIsExact` | src/JsonSettingsIO.cpp:207-241 | the loader keeps all books as they are if and only if each has a path and no empty known path |
| `StatsDocument.ReadBackTime` | src/JsonSettingsIO.cpp:207-214 | what a day loses over saving and loading is the time of books without a path, so nothing exactly when they have none |
| `Summary.BuildSummary` | src/ReadingStatsStore.cpp:604-668 | the loops compute total, finished count, today, the two windows and both streaks as their per-day definitions say |
| `Summary.ScanDays` | src/ReadingStatsStore.cpp:615-635 | one pass over the sorted days yields today, both windows and the increasing list of goal-met days |
| `Summary.SumBooks` | src/ReadingStatsStore.cpp:609-614 | reading time and number of finished books over all books |
| `Summary.SumSpan` | src/ReadingStatsStore.cpp:1009-1018 | summing the entries inside a span is summing the time of its days |
| `Summary.SummaryUnique` | src/ReadingStatsStore.cpp:604-668 | for a reference day and goal only one summary is right |
| `Summary.TotalsAdd` | src/ReadingStatsStore.cpp:609-614 | total time and number of finished books are additive over lists of books |
| `Summary.WindowExact` | src/ReadingStatsStore.cpp:616-617 | a window of n days holds exactly the n days up to the reference day |
| `ReadingStats.ReadingStatsStore.constructor` | src/ReadingStatsStore.h:84-100 | the empty store satisfies the invariant |
| `ReadingStats.ReadingStatsStore.FindBookIndexByPath` | src/ReadingStatsStore.cpp:115-128 | the first book with this path, now or earlier, or none |
| `ReadingStats.ReadingStatsStore.FindBookIndexByBookId` | src/ReadingStatsStore.cpp:130-141 | the first book with this id, or none |
| `ReadingStats.ReadingStatsStore.FindLegacyMergeCandidate` | src/ReadingStatsStore.cpp:143-170 | the one book that may be the same under another path, and none when there are two |
| `ReadingStats.ReadingStatsStore.GetReferenceTimestamp` | src/ReadingStatsStore.cpp:398-414 | the best timestamp there is |
| `ReadingStats.ReadingStatsStore.GetReferenceDayOrdinal` | src/ReadingStatsStore.cpp:416-425 | the local day of the reference timestamp, else the last day on record, else 0 |
| `ReadingStats.ReadingStatsStore.MarkDirty` | src/ReadingStatsStore.cpp:552-561 | the summary is invalid, and the store dirty unless its file failed to load |
| `ReadingStats.ReadingStatsStore.PersistToFile` | src/ReadingStatsStore.cpp:573-602 | nothing is written while the file has failed to load or memory is short; otherwise one save of the contents, and clean if it succeeded; the time of the attempt is kept when memory is short, too |
| `ReadingStats.ReadingStatsStore.SaveToFile` | src/ReadingStatsStore.cpp:1106-1114 | true and nothing to do when clean and present or put off while reading, else one save and its result; without faults a clean store stays the same as its file |
| `ReadingStats.ReadingStatsStore.TouchBook` | src/ReadingStatsStore.cpp:439-455 | the book comes first, the others keep their order, and the session still denotes the same book |
| `ReadingStats.ReadingStatsStore.GetOrCreateBookIndex` | src/ReadingStatsStore.cpp:277-322 | the book known by path, else by id, else the sole candidate is identified anew, or a new book is put in front; the ledger equation is kept |
| `ReadingStats.ReadingStatsStore.RecordReadingTime` | src/ReadingStatsStore.cpp:461-469 | book and aggregate gain the same time on the same day, or nothing without a valid clock |
| `ReadingStats.ReadingStatsStore.NoteActivity` | src/ReadingStatsStore.cpp:711-734 | the gap since the last interaction, at most half an hour, goes to the book, the session and the day, and is saved when a save is due and possible |
| `ReadingStats.ReadingStatsStore.TickActiveSession` | src/ReadingStatsStore.cpp:736-747 | the same once a minute has passed, else nothing |
| `ReadingStats.ReadingStatsStore.ResumeSession` | src/ReadingStatsStore.cpp:749-754 | the interaction time moves, nothing is credited |
| `ReadingStats.ReadingStatsStore.BeginSession` | src/ReadingStatsStore.cpp:670-709 | the open session is closed first: days, log, snapshot, serial and, when saving is possible, the file are those of EndSession; then the book denoted comes first and the session is on it with nothing accumulated; an ignored path leaves no session and no snapshot |
| `ReadingStats.ReadingStatsStore.EndSession` | src/ReadingStatsStore.cpp:893-929 | the last gap is credited, sessions of three minutes count and are logged, the snapshot gets a new serial; when saving is possible without faults the file then holds exactly the store with the session closed |
| `ReadingStats.ReadingStatsStore.UpdateProgress` | src/ReadingStatsStore.cpp:756-790 | progress of the session book only; completion is set for ever and dated once; a change is saved when a save is due and possible |
| `ReadingStats.ReadingStatsStore.AdjustBookReadingTime` | src/ReadingStatsStore.cpp:931-966 | the time of exactly one day of one book and of the aggregate changes by the delta, or nothing changes when the book cannot cover it; the result is that of the save, true while a session puts it off |
| `ReadingStats.ReadingStatsStore.UpdateBookMetadata` | src/ReadingStatsStore.cpp:792-825 | non-empty texts replace those of the first book with the path; true exactly when something changed |
| `ReadingStats.ReadingStatsStore.UpdateBookPath` | src/ReadingStatsStore.cpp:827-864 | the book known by the old key or the id gets the new path and keeps all it has recorded |
| `ReadingStats.ReadingStatsStore.RemoveBook` | src/ReadingStatsStore.cpp:866-891 | the book is gone, every day loses exactly what it had recorded, and a session on another book still denotes that book |
| `ReadingStats.ReadingStatsStore.RebuildAggregatedReadingDays` | src/ReadingStatsStore.cpp:531-540 | the ledger equation holds for every day |
| `ReadingStats.ReadingStatsStore.RebuildSummaryCache` | src/ReadingStatsStore.cpp:604-668 | the cache is right for the current clock and goal |
| `ReadingStats.ReadingStatsStore.RefreshSummary` | src/ReadingStatsStore.cpp:983-986 | a cache that is not rebuilt is right for the goal, and for the day where that is compared |
| `ReadingStats.ReadingStatsStore.GetTotalReadingMs` | src/ReadingStatsStore.cpp:975-980 | the sum over the books as they are now |
| `ReadingStats.ReadingStatsStore.GetBooksFinishedCount` | src/ReadingStatsStore.cpp:968-973 | the number of finished books as they are now |
| `ReadingStats.ReadingStatsStore.GetTodayReadingMs` | src/ReadingStatsStore.cpp:982-988 | the time of the current reference day |
| `ReadingStats.ReadingStatsStore.GetRecentReadingMs` | src/ReadingStatsStore.cpp:990-1019 | the time of the last 7, 30, or exactly as many days as asked for |
| `ReadingStats.ReadingStatsStore.GetCurrentStreakDays` | src/ReadingStatsStore.cpp:1021-1027 | the current streak for the current day and goal |
| `ReadingStats.ReadingStatsStore.GetMaxStreakDays` | src/ReadingStatsStore.cpp:1029-1034 | the longest streak for the current goal, although the cached reference day is not compared |
| `ReadingStats.ReadingStatsStore.Reset` | src/ReadingStatsStore.cpp:1052-1064 | everything is empty, the latch is off, and the empty store is written if possible |
| `ReadingStats.ReadingStatsStore.ExportToFile` | src/ReadingStatsStore.cpp:1066-1071 | one save of the contents to any file, also while the own file has failed to load |
| `ReadingStats.ReadingStatsStore.ImportFromFile` | src/ReadingStatsStore.cpp:1073-1104 | an unreadable source changes nothing; a readable one replaces the store, fills in an invalid last timestamp from its books, lifts the latch and is saved |
| `ReadingStats.ReadingStatsStore.LoadFromFile` | src/ReadingStatsStore.cpp:1116-1167 | interrupted saves are recovered; an unreadable file latches and is not touched; a readable one defines the store and an invalid last timestamp, and is rewritten only if its format asks for it |
| `ReadingStats.ReadingStatsStore.AdoptDocument` | src/JsonSettingsIO.cpp:146-250 | books, legacy days and sessions of the document, in a store that satisfies the ledger equation |
| `ReadingStats.ReadingStatsStore.ReleaseMemoryForNetwork` | src/ReadingStatsStore.cpp:1169-1201 | memory is given back only when nothing unsaved is lost: without faults the file then holds the store with its open session closed |
| `ReadingStats.ReadingStatsStore.ReloadAfterNetwork` | src/ReadingStatsStore.cpp:1203-1213 | a missing file is no failure; otherwise an unreadable file latches and is not touched, and a readable one defines the store and an invalid last timestamp and is rewritten only if its format asks for it |
| `ReadingStats.ReadingStatsStore.CreditActivity` | src/ReadingStatsStore.cpp:716-728 | the crediting half of noteActivity, without the save |
| `ReadingStats.ReadingStatsStore.StampBook` | src/ReadingStatsStore.cpp:427-437 | the first reading time is set once, the last one always, and neither without a valid clock |
| `ReadingStats.ReadingStatsStore.CountSession` | src/ReadingStatsStore.cpp:902-925 | a session of three minutes or more is counted, timed and logged; the snapshot describes the session and gets a new serial |
| `ReadingStats.ReadingStatsStore.AppendSessionLogEntry` | src/ReadingStatsStore.cpp:471-481 | the entry goes to the end and only the latest 256 remain; entries without day or time are dropped |
| `ReadingStats.ReadingStatsStore.SaveIfDue` | src/ReadingStatsStore.cpp:731-733 | one save when a deferred save is due, else nothing |
| `ReadingStats.ReadingStatsStore.LocateBook` | src/ReadingStatsStore.cpp:284-290 | known by path, else by id, else the sole candidate |
| `ReadingStats.ReadingStatsStore.OpenBook` | src/ReadingStatsStore.cpp:687-708 | the session is on the book denoted, which comes first with its progress and time noted |
| `ReadingStats.ReadingStatsStore.RecordProgress` | src/ReadingStatsStore.cpp:774-784 | the progress fields, the reading time and, on completion, its date |
| `ReadingStats.ReadingStatsStore.AdjustBook` | src/ReadingStatsStore.cpp:942-961 | the day and total of one book change by the delta, or nothing when it cannot cover it |
| `ReadingStats.ReadingStatsStore.EraseBook` | src/ReadingStatsStore.cpp:872-887 | the book is gone and every day has lost what it had recorded |
| `ReadingStats.ReadingStatsStore.RelocateBook` | src/ReadingStatsStore.cpp:843-859 | the fields of one book change, its recorded days do not |
| `ReadingStats.ReadingStatsStore.RecoverFile` | src/ReadingStatsStore.cpp:1117-1122 | an interrupted save is adopted, unless the rename fails |
| `ReadingStats.ReadingStatsStore.RememberLatestTimestamp` | src/ReadingStatsStore.cpp:1147-1150 | the last known time is filled in from the books only when it was not valid |
| `ReadingStats.ReadingStatsStore.Forget` | src/ReadingStatsStore.cpp:1182-1196 | an empty, clean store without session |
| `StoreSteps.ReadKeepsLedger` | src/ReadingStatsStore.cpp:711-728 | crediting activity keeps the ledger equation for every day |
| `StoreSteps.ReadMeans` | src/ReadingStatsStore.cpp:720-728 | session book, total and reference day gain the credited time, no other book or day does |
| `StoreSteps.StampedMeans` | src/ReadingStatsStore.cpp:427-437 | with a valid reference the book was last read then, and first if it never was before; nothing else changes |
| `StoreSteps.NoReferenceNoDays` | src/ReadingStatsStore.cpp:416-425 | a reference day of 0 implies that no day is on record |
| `StoreSteps.LoadedTime` | src/ReadingStatsStore.cpp:1143-1146 | after a load a day holds the time the document means, less what ignored books had recorded on it; exactly that time if and only if no ignored book, after merging, has read on that day |
| `StoreSteps.MigratedTimeCanVanish` | src/ReadingStatsStore.cpp:1143-1146 | a version 5 document whose only book is ignored: the migration gives the day its larger figure, and after the load the day has none |
| `StoreSteps.IgnoredFileLoads` | src/JsonSettingsIO.cpp:207-250 | the store that this document is loaded into is empty, so there is one |
| `StoreSteps.OpenedIsStorable` | src/ReadingStatsStore.cpp:277-303 | a book a session opens is one the next load keeps, if and only if it was known or its path normalises to something |
| `StoreSteps.MovedIsFound` | src/ReadingStatsStore.cpp:827-864 | after a move the book is found under its new path and under the old key, with all it has recorded |
| `StoreSteps.IdentifiedIsFound` | src/ReadingStatsStore.cpp:306-321 | a book identified anew is found under the path it was opened with, with all it has recorded |
| `StoreSteps.ProgressKeeps` | src/ReadingStatsStore.cpp:756-790 | progress changes no other book and no recorded time, never takes completion back, and sets the date of completion only on completion and only once |
| `StoreSteps.AdjustMeans` | src/ReadingStatsStore.cpp:945-963 | only the adjusted day changes in the rebuilt aggregate |
| `StepMeanings.FoundByItsPaths` | src/ReadingStatsStore.cpp:115-128 | a book is found by the path it is at and every path it was known by, and by no other; an empty path finds nothing |
| `StepMeanings.CopiesAreFound` | src/ReadingStatsStore.cpp:172-275 | after normalizeBooks, whatever path a copy had leads to the one book left of it |
| `StepMeanings.OpeningMeans` | src/ReadingStatsStore.cpp:305-321 | opening replaces exactly the texts that are given, and the id only if it was empty or gives way from legacy to proper |
| `StepMeanings.MovingMeans` | src/ReadingStatsStore.cpp:844-858 | moving does the same, and keeps the id when none is given |
| `StepMeanings.MergingKeepsId` | src/ReadingStatsStore.cpp:190-193 | merging two copies keeps a proper id, and lets a legacy one or none give way |
| `StepMeanings.DescribingMeans` | src/ReadingStatsStore.cpp:804-816 | editing the metadata replaces exactly the texts that are given and nothing else |
| `StepMeanings.NewBookMeans` | src/ReadingStatsStore.cpp:291-303 | a new book has the path, id and texts given, nothing on record, and is found under its path |
| `StepMeanings.ProgressMeans` | src/ReadingStatsStore.cpp:763-780 | progress is a percentage up to 100, and a book is completed when it was, when told so, or at 100 |
| `StepMeanings.ProgressIsDated` | src/ReadingStatsStore.cpp:782-785 | with a set clock a change of progress is dated by it, and so is the completion that comes with it, unless there is a date already |
| `StepMeanings.ProgressWithoutClock` | src/ReadingStatsStore.cpp:782-785 | without one the date is the last known time, or else none before the book was last read |
| `StepMeanings.ReadingIsDated` | src/ReadingStatsStore.cpp:720-728 | time read is dated in the same order |
| `StepMeanings.GapIsCredited` | src/ReadingStatsStore.cpp:716-718 | between interactions less than 2^32 ms apart the time credited is the real gap, up to half an hour, across wrap-around |
| `StepMeanings.EndMeans` | src/ReadingStatsStore.cpp:902-910 | a session of three minutes or more is one more session of its book and its last one, with its length cut at 2^32-1; nothing else changes |
| `StepMeanings.LogKeepsLatest` | src/ReadingStatsStore.cpp:471-481 | the log holds the latest 256 of all entries with a day and a time, and trimming it on load keeps as many |
| `StepMeanings.EndIsLogged` | src/ReadingStatsStore.cpp:908-914 | a session that counts is logged on the day of its reference time, and no other session is |
| `StepMeanings.ClosingMeans` | src/ReadingStatsStore.cpp:893-915 | closing an open session credits the last gap to session, book and day, and counts and logs the session if it then has three minutes |
| `StepMeanings.RefusedAdjustment` | src/ReadingStatsStore.cpp:943-961 | an adjustment is refused exactly when day or book would be left with less than nothing |
| `StepMeanings.AdjustedByDelta` | src/ReadingStatsStore.cpp:943-961 | one that is not refused changes the day and the total of the book by just as much and nothing else |
| `StepMeanings.AdjustmentUndone` | src/ReadingStatsStore.cpp:943-961 | every adjustment can be taken back, which leaves total and every day as they were |
| `StepMeanings.SaveIsDue` | src/ReadingStatsStore.cpp:563-571 | while reading, a save is due when there has been none or the last is at least 30 seconds old, across wrap-around |
| `StepMeanings.SaveResult` | src/ReadingStatsStore.cpp:1106-1114 | a save left out succeeds, a latched store or a short heap fails, and otherwise the file system decides |
| `StepMeanings.RewrittenWhen` | src/JsonSettingsIO.cpp:203-245 | a file is written back exactly when its format is older than 6 or a book it names has no id |
| `StatsRuns.RunSession` | src/ReadingStatsStore.cpp:711-754 | over any activities, ticks and resumes with gaps below 2^32 ms, the session accumulates the closed gaps, each at most half an hour, its book gains exactly as much, and no other book changes |
| `StatsRuns.RealIsWellTimed` | src/ReadingStatsStore.cpp:711-754 | every session shorter than 2^32 ms, with the tick counter wrapping as it may, is one this applies to |
| `StatsRuns.SteadyReading` | src/ReadingStatsStore.cpp:711-728 | reading without a pause of more than half an hour is credited in full, from the start to the last page turn |
| `StatsRuns.FirstBeat` | src/ReadingStatsStore.cpp:711-754 | a longer pause is credited as half an hour; time before a resume and heartbeats within a minute of the last interaction credit nothing |
| `StatsRuns.RunOperations` | src/ReadingStatsStore.cpp:552-1213 | over any sequence of calls (sessions, edits, queries, reset, load, import, export, release and reload, under any faults) every state satisfies the ledger equation for every day, the session index and the latch, every step does to latch and file only what its call may, and every query is answered with the figures of the state it meets |
| `StatsRuns.RunFromStart` | src/ReadingStatsStore.cpp:531-540 | the same for every state that can be reached from a new store |
| `StatsRuns.QueriesAgree` | src/ReadingStatsStore.cpp:968-1034 | in a run, queries made under the same surroundings with only queries between them give the same answers |
| `StatsRuns.AnswersCohere` | src/ReadingStatsStore.cpp:968-1034 | in any answer the current streak is at most the longest and today is part of the last days |
| `StatsRuns.LatchedUntilLifted` | src/ReadingStatsStore.cpp:552-602 | a latched store leaves its file alone until a load, reload or import succeeds or it is reset, whatever else is done |
| `StatsRuns.LatchedBySomeLoad` | src/ReadingStatsStore.cpp:1128-1139 | in a run from the start a latched store was latched by a load that failed on a file that is there, and nothing lifted the latch since |
| `StatsRuns.CleanMeansSaved` | src/ReadingStatsStore.cpp:573-602 | without faults a clean store and its file stay alike until a file is adopted or memory given back |
| `StatsRuns.UnrecoveredFileIsLost` | src/ReadingStatsStore.cpp:1117-1139 | when the recovering rename fails at boot the store is not latched, and its next save deletes the only copy of its document |
| `StatsRuns.LatchedFromBoot` | src/ReadingStatsStore.cpp:1116-1139 | after a boot with an unreadable file, in every state up to the call that lifts the latch the file is what recovery found |
| `SaveProtocol.Storage.SaveJsonDocument` | src/JsonSettingsIO.cpp:25-75 | the disk after every step, and the result, as the step sequence defines them; unusable paths do nothing |
| `SaveProtocol.Storage.Recover` | src/ReadingStatsStore.cpp:1117-1122 | a temporary file without a main file becomes the main file, unless the rename fails |
| `SaveProtocol.SaveIsAtomic` | src/JsonSettingsIO.cpp:41-74 | at whatever step power is lost, recovery finds the old or the new document, and never the old one after the new |
| `SaveProtocol.PathUsableExact` | src/JsonSettingsIO.cpp:26-37 | a path is usable exactly when it is not empty and fits the buffer together with its suffix and terminator |
| `SaveProtocol.SaveCommits` | src/JsonSettingsIO.cpp:41-74 | true means the new document is there, false that the old one is |
| `SaveProtocol.LossIsExact` | src/JsonSettingsIO.cpp:41-74 | from any disk that holds a document, recovery finds one after every step of a save if and only if the main file holds it and it is not the case that the old file is removed with the new one cut short or not renamed |
| `SaveProtocol.UnrecoveredCopyIsDeleted` | src/JsonSettingsIO.cpp:41-43 | where only the temp file holds anything, the first step of any save empties the disk |
| `SaveProtocol.FailedRenameLosesEverything` | src/JsonSettingsIO.cpp:68-72 | the failed-rename branch leaves neither file |
| `SaveProtocol.RunKeepsDocument` | src/JsonSettingsIO.cpp:25-75 | over any saves, power losses and reboots the file holds a whole document that changes only as the events allow |
| `SaveProtocol.RunIsDurable` | src/JsonSettingsIO.cpp:25-75 | a document whose save returned true is there until the next save |
| `SaveProtocol.PowerLossAnywhere` | src/ReadingStatsStore.cpp:1117-1122 | a power loss may come after any step of a save, and booting then makes a temporary file without a main file the main file |
| `SaveProtocol.WithoutRecoveryDocumentsAreLost` | src/JsonSettingsIO.cpp:41-43 | after an interruption between remove and rename, any save before recovery, whatever its faults, deletes the only copy |
| `SaveProtocol.TornAdoptedExactly` | src/JsonSettingsIO.cpp:41-74 | for every disk and every save: recovery finds an incomplete main file at some step if and only if it found one before, or the temp file is opened without a main file to fall back on, or a file cut short replaces the main one |
| `SaveProtocol.ShortWriteReplacesGoodFile` | src/JsonSettingsIO.cpp:53-74 | a write cut short counts as a success and replaces a good file |
| `SaveProtocol.InterruptedFirstSaveIsAdoptedTorn` | src/ReadingStatsStore.cpp:1117-1122 | an interrupted first save is adopted incomplete |
| `Achievements.AchievementsStore.Unlock` | src/AchievementsStore.cpp:275-287 | only the first unlock of an achievement sets its date and queues it |
| `Achievements.AchievementsStore.EvaluateProgress` | src/AchievementsStore.cpp:314-351 | afterwards an achievement is unlocked exactly if it was or its target is reached; none is locked, re-dated or queued twice |
| `Achievements.AchievementsStore.RecordSessionEnded` | src/AchievementsStore.cpp:411-455 | a session already processed, invalid or nameless changes nothing; any other is counted once in every figure and advances the tracker |
| `Achievements.AchievementsStore.TrackGoal` | src/AchievementsStore.cpp:436-450 | the four goal fields change as the tracker does |
| `Achievements.AchievementsStore.PopNextPopup` | src/AchievementsStore.cpp:523-531 | the oldest queued unlock |
| `Achievements.RunReports` | src/AchievementsStore.cpp:411-455 | over any reports the goal fields are those of the tracker, the time added is that of the reports accepted, and unlocks are permanent; fed goal-met days in order from a fresh start the fields agree with the batch, and when every session is accepted once its time is added exactly once |
| `Achievements.EventMeans` | src/AchievementsStore.cpp:289-299 | the day is the local day of the reference time, and its goal is met by the time of the day less the time it had when the store was reset on that day |
| `AchievementRuns.RunFromStart` | src/AchievementsStore.cpp:301-455 | from a new store, after any reports of which one counts, each achievement is unlocked exactly if the figure it is named after reaches its target: distinct books started or finished, counted sessions, time, longest session, highest climb of the goal-met days, and their number when they come in blocks |
| `AchievementRuns.EarnedInOrder` | src/AchievementsStore.cpp:436-450 | when goal-met days come in order, that is their number and their longest run |
| `AchievementRuns.EventsOfAccepted` | src/AchievementsStore.cpp:411-440 | the day events of a run are those of the reports that count, one each |
| `SessionCounts.SerialsCountOnce` | src/AchievementsStore.cpp:411-417 | every serial is accepted at its first report and never again if and only if the reports of each serial form one block |
| `SessionCounts.SessionsCountOnce` | src/AchievementsStore.cpp:411-417 | over any reports, every session is accepted at its first report and never again if and only if each report shows the serial of the eligible one before it exactly when its session has been reported before |
| `SessionCounts.SessionsCountOnceInBlocks` | src/AchievementsStore.cpp:411-417 | when the reports of each serial form one block, that is the case if and only if no two sessions share a serial |
| `SessionCounts.SerialMayComeBack` | src/AchievementsStore.cpp:411-417 | sessions with serials 1, 2 and 1 again count once each, although the serial comes back |
| `SessionCounts.RestartsAreHarmless` | src/ReadingStatsStore.cpp:918 | for sessions reported once each with the serials the statistics store gives out, all count once if and only if the counter is never started over right after a session with serial 1 |
| `SessionCounts.SessionsAddOnce` | src/AchievementsStore.cpp:416-430 | when every session is accepted once, the time added is the sum over the distinct sessions |
| `SessionCounts.RepeatsCountOnce` | src/AchievementsStore.cpp:412-417 | a session reported again and again, with nothing in between, counts the first time only |
| `SessionCounts.SerialsAdvance` | src/ReadingStatsStore.cpp:918 | consecutive sessions have different serials, and only the last of the 32-bit range is followed by 0 |
| `SessionCounts.SerialsCountUp` | src/ReadingStatsStore.cpp:918 | without a restart the sessions of a store get the serials 1, 2, 3 and so on |
| `Achievements.RestartedSessionIsDropped` | src/AchievementsStore.cpp:411-417 | when the counter of serials has been started over and one session was processed before, the next session changes no figure |
| `Utf8.Utf8Injective` | scripts/gen_i18n.py:774 | different texts have different UTF-8 encodings (section 3 of RFC 3629) |
| `Utf8.ZeroBytes` | scripts/gen_i18n.py:774 | only NUL encodes to a zero byte |
| `StringTable.CompileEnglish` | scripts/gen_i18n.py:768-781 | each offset is where the earlier strings end; refused exactly when the blob outgrows 15 bits |
| `StringTable.CompileOther` | scripts/gen_i18n.py:782-797 | strings equal to English get the English offset with bit 15, the others their place in the own blob |
| `StringTable.CompileTables` | scripts/gen_i18n.py:761-797 | for every language and key the lookup yields the string exactly when it contains no NUL, bit 15 is set exactly for strings equal to English outside English, and compilation fails exactly when a blob is too large |
| `StringTable.LookupFinds` | lib/I18n/I18n.cpp:46-59 | reading at the offset up to the NUL, in the English blob when bit 15 is set, gives back the string |
| `StringTable.EntryReads` | lib/I18n/I18n.cpp:55-58 | reading at the start of an entry gives its text exactly when it contains no NUL |
| `StringTable.EnglishOffsets` | scripts/gen_i18n.py:775-780 | accepted English offsets leave bit 15 free |
| `StringTable.OwnMembers` | scripts/gen_i18n.py:784-792 | the blob of a language holds exactly the texts that differ from English |
| `StringTable.FlagIsBit15` | lib/I18n/I18n.cpp:55-58 | bit 15 of an offset chooses the English blob and the other 15 bits say where to read |
| `CppLiteral.EscapeCppString` | scripts/gen_i18n.py:407-464 | the index-driven loop yields the segments of the recursive definition, on every input |
| `CppLiteral.FormatCppStringLiteral` | scripts/gen_i18n.py:467-521 | short segments are one line each, long ones are wrapped |
| `CppLiteral.ShortSegmentIsOneLine` | scripts/gen_i18n.py:480-483 | a segment of up to 113 characters is one line, indented and quoted |
| `CppLiteral.LinesFit` | scripts/gen_i18n.py:467-521 | no line is wider than 120 columns |
| `CppLiteral.WrapSegment` | scripts/gen_i18n.py:485-519 | the wrapping loop terminates and cuts where the definition says |
| `CppLiteral.FindLastSpace` | scripts/gen_i18n.py:490-500 | the scan finds the last space it steps on within the limit |
| `CppLiteral.AppendStringDataEntry` | scripts/gen_i18n.py:897-910 | the escaped text and its separator, formatted, are appended |
| `CppRoundTrip.CleanCut` | scripts/gen_i18n.py:503-516 | a literal cut between two tokens reads as before, whatever it is |
| `CppRoundTrip.BadCut` | scripts/gen_i18n.py:503-516 | a segment cut inside an escape does not compile, or reads as visibly more |
| `CppRoundTrip.BoundaryIsExact` | scripts/gen_i18n.py:503-516 | a position is between tokens if and only if it is inside no escape |
| `CppRoundTrip.SpaceCutIsClean` | scripts/gen_i18n.py:487-503 | a cut after the space the scan finds is never inside an escape, in any text |
| `CppRoundTrip.CutIsClean` | scripts/gen_i18n.py:504-516 | a forced cut is inside an escape only between the two backslashes of a pair, or with one or two characters of the final hex escape too many |
| `CppRoundTrip.WrappedDecodes` | scripts/gen_i18n.py:485-519 | wrapped lines read as the segment would, or as visibly more or nothing when a cut was inside an escape |
| `CppRoundTrip.EscapedReads` | scripts/gen_i18n.py:434-464 | the segments that any text is escaped to, the separator included, read as what the text means, escapes of its own and malformed ones included |
| `CppRoundTrip.EntryRoundTrip` | scripts/gen_i18n.py:897-910 | for every text: the literals compile to the bytes it means if and only if no line is cut inside an escape, and otherwise to something longer or not at all; a text that means nothing never compiles |
| `CppRoundTrip.PlainTextMeansItself` | scripts/gen_i18n.py:407-464 | text without backslashes means its own UTF-8 bytes and the separator |
| `CppRoundTrip.PlainEntryRoundTrip` | scripts/gen_i18n.py:897-910 | for such text the literals compile to exactly the entry that the offsets count, if and only if no line is cut inside an escape |
| `CppRoundTrip.SpacedEntryRoundTrip` | scripts/gen_i18n.py:467-521 | any text whose segments never go 114 characters without a space compiles to what it means |
| `CppRoundTrip.ForcedCutSpoils` | scripts/gen_i18n.py:503-516 | any 110 or 111 letters without a space followed by any character beyond ASCII: the line is cut inside the hex escape and the entry is spoiled |
| `CppRoundTrip.PairCutSpoils` | scripts/gen_i18n.py:503-516 | any 111 letters without a space followed by a backslash and a letter that makes no escape: the cut steps back into the pair of backslashes and the entry is spoiled |
| `CppTables.PrintBlob` | scripts/gen_i18n.py:800-805 | the lines of a data array, one empty entry when there is no string |
| `CppTables.BlobRoundTrip` | scripts/gen_i18n.py:800-805 | for all strings: the literals of an array compile to their meanings, each with its separator, if and only if no line of any of them is cut inside an escape |
| `CppTables.MeaningIsNoLonger` | scripts/gen_i18n.py:407-464 | what a text compiles to is never longer than the UTF-8 bytes and separator its offset is counted with |
| `CppTables.LiteralIsExact` | scripts/gen_i18n.py:407-464 | it is those bytes if and only if the text has no escape of its own and does not end in a backslash |
| `CppTables.OffsetsFit` | scripts/gen_i18n.py:768-805 | an array holds what the offsets were counted on if and only if that is so for all its strings |
| `CppTables.PrintedTableHoldsData` | scripts/gen_i18n.py:799-806 | with no line cut inside an escape, the compiled array is the data that the offsets point into if and only if no string has escapes of its own; and for such strings, if and only if no line is cut inside an escape |
| `CppTables.Generate` | scripts/gen_i18n.py:761-806 | from the translations to the device: when English and a language have no escapes of their own and no line is cut inside an escape, looking any key up in the compiled literals gives its translation if and only if that contains no NUL |
| `CppTables.EscapeMovesTheRest` | scripts/gen_i18n.py:774-805 | an input: after a string that contains a backslash and an n, the next one is looked up in the wrong place |
| `CppTables.TrailingBackslashSwallowsSeparator` | scripts/gen_i18n.py:900-905 | any text that ends in its only backslash loses its separator: a zero digit stands in its place |

## Left out

- Inflating, JSON parsing and printing, UTF-8 decoding and the SD-card driver: their sources are not part of this model; an inflater is any function to bytes, a document is a value that is whole or torn, text is a sequence of codepoints or characters.
- Widths of stored counters: 64-bit and 32-bit sums of reading time, sessions and counters are unbounded; wrap-around is modelled for the tick counter, the session serial, the CRC, the Base64 accumulator and the clamp of a session's length.
- StringTable.CompileOther: the offset with the flag is a sum, which is what the bitwise or amounts to below 15 bits.
- GlyphCache.FontDecompressor.GetBitmap: says what the bytes are when the call returns; a pointer into the scratch buffer is overwritten by the next lookup, as in the source, and a font without groups is a font whose group table is empty.
- Statistics, timing and log output of the decompressor, and its heap: an allocation may fail at any time.
- Rendering: drawing glyphs, rotation apart from the placement of marks, the literal Simplified/Traditional table (any function), and the on-demand glyph loader of SD-card fonts (any function).
- One call of the statistics store sees one value of clock and tick counter; the source reads them more than once.
- ReadingStats.ReadingStatsStore.AdjustBookReadingTime: the delta is unbounded, so the overflow of negating the least 32-bit integer is not modelled.
- The write of the application state that follows when its last timestamp is filled in concerns another file; the timestamp itself is modelled.
- Lookups for display (findBook, findMatchingBookForPath, getDisplayTimestamp) and the texts shown: they only read.
- Achievements: bootstrapping and synchronising from the statistics, resetting, saving and the literal table of achievements; definitions are a parameter with distinct ids.
- The compiler of the printed literals: only what these literals use is modelled (characters, the escapes of one letter, hex and octal escapes, joining); a raw carriage return inside a literal is taken as one character, and a malformed escape as an error.
- Key selection, character sets, language names and enum generation of the string compiler, and the choice of language on the device.
- Settings, button mapping, Wi-Fi, OPDS, recent books, the sleep ring, boot and main loop, and the simulator's window: user interface, hardware and build plumbing.
