// The 156-byte header of the flash font cache (lib/EpdFont/SdCardFontCacheFormat.h) as the bytes
// it occupies: magic 0..8, version 8..10, headerSize 10..12, payloadSize 12..16, contentHash
// 16..20, payloadCrc 20..24, headerCrc 24..28, sourcePath 28..156, integers little-endian.
module FontCacheHeader {
  import opened Wrappers
  import opened Crc32

  const HEADER_SIZE := 156
  const CRC_AT := 24
  const PATH_AT := 28
  const UINT32_MAX: bv32 := 0xFFFF_FFFF
  const MAGIC: seq<octet> := [0x43, 0x50, 0x53, 0x44, 0x46, 0x43, 0x31, 0x00]
  // version == 1 and headerSize == 156
  const VERSION_AND_SIZE: seq<octet> := [0x01, 0x00, 0x9C, 0x00]

  ghost predicate IsHeader(h: seq<octet>) {
    |h| == HEADER_SIZE
  }

  function LittleEndian(b: seq<octet>): nat {
    if b == [] then 0 else b[0] as int + 256 * LittleEndian(b[1..])
  }

  function PayloadSize(h: seq<octet>): nat
    requires IsHeader(h)
  {
    LittleEndian(h[12..16])
  }

  function CrcField(h: seq<octet>): bv32
    requires IsHeader(h)
  {
    Word(h[24], h[25], h[26], h[27])
  }

  // The header with its own checksum taken as zero.
  function Zeroed(h: seq<octet>): (z: seq<octet>)
    requires IsHeader(h)
    ensures |z| == HEADER_SIZE
  {
    h[..CRC_AT] + [0, 0, 0, 0] + h[PATH_AT..]
  }

  function HeaderCrc(h: seq<octet>): bv32
    requires IsHeader(h)
  {
    Checksum(Zeroed(h))
  }

  // isHeaderValid before its last conjunct.
  predicate FieldsValid(h: seq<octet>, payloadCapacity: nat)
    requires IsHeader(h)
  {
    && h[..8] == MAGIC
    && h[8..12] == VERSION_AND_SIZE
    && 0 < PayloadSize(h) <= payloadCapacity
    && 0 in h[PATH_AT..]
  }

  predicate IsHeaderValid(h: seq<octet>, payloadCapacity: nat)
    requires IsHeader(h)
  {
    FieldsValid(h, payloadCapacity) && CrcField(h) == HeaderCrc(h)
  }

  // ----- damage that is always noticed -----

  // The window keeps to one side of the headerCrc field, or within it.
  predicate KeepsToOneSide(at: nat, length: nat) {
    at + length <= CRC_AT || (CRC_AT <= at && at + length <= PATH_AT) || PATH_AT <= at
  }

  // A valid header altered within four consecutive bytes, clear of the edges of the headerCrc
  // field, is never valid.
  lemma DamageDetected(h: seq<octet>, t: seq<octet>, at: nat, length: nat, capacity: nat, capacity': nat)
    requires IsHeader(h) && IsHeader(t) && IsHeaderValid(h, capacity)
    requires DifferInside(h, t, at, length) && length <= 4 && h != t && KeepsToOneSide(at, length)
    ensures !IsHeaderValid(t, capacity')
  {
    hide Xor, Crc, Word;
    if CRC_AT <= at && at + length <= PATH_AT {
      assert h[..24] == h[..at][..24] && t[..24] == t[..at][..24];
      assert h[28..] == h[at + length..][28 - at - length..] && t[28..] == t[at + length..][28 - at - length..];
      assert Zeroed(h) == Zeroed(t);
      if CrcField(h) == CrcField(t) {
        WordInjective(h[24], h[25], h[26], h[27], t[24], t[25], t[26], t[27]);
        SameOutsideAndInside(h, t);
      }
    } else {
      ZeroedDiffersInside(h, t, at, length);
      BurstDetected(UINT32_MAX, Zeroed(h), Zeroed(t), at, length);
      XorCancels(Crc(UINT32_MAX, Zeroed(h)), Crc(UINT32_MAX, Zeroed(t)), UINT32_MAX);
      assert CrcField(h) == CrcField(t) by { FieldUntouched(h, t, at, length); }
    }
  }

  lemma SameOutsideAndInside(h: seq<octet>, t: seq<octet>)
    requires IsHeader(h) && IsHeader(t) && h[..24] == t[..24] && h[28..] == t[28..]
    requires h[24] == t[24] && h[25] == t[25] && h[26] == t[26] && h[27] == t[27]
    ensures h == t
  {
    assert h == h[..24] + [h[24], h[25], h[26], h[27]] + h[28..];
    assert t == t[..24] + [t[24], t[25], t[26], t[27]] + t[28..];
  }

  lemma PointwiseOutside(h: seq<octet>, t: seq<octet>, at: nat, length: nat, k: nat)
    requires DifferInside(h, t, at, length) && k < |h| && (k < at || at + length <= k)
    ensures h[k] == t[k]
  {
    if k < at {
      assert h[k] == h[..at][k] && t[k] == t[..at][k];
    } else {
      assert h[k] == h[at + length..][k - at - length] && t[k] == t[at + length..][k - at - length];
    }
  }

  lemma FieldUntouched(h: seq<octet>, t: seq<octet>, at: nat, length: nat)
    requires IsHeader(h) && IsHeader(t) && DifferInside(h, t, at, length)
    requires at + length <= CRC_AT || PATH_AT <= at
    ensures h[24] == t[24] && h[25] == t[25] && h[26] == t[26] && h[27] == t[27]
  {
    PointwiseOutside(h, t, at, length, 24);
    PointwiseOutside(h, t, at, length, 25);
    PointwiseOutside(h, t, at, length, 26);
    PointwiseOutside(h, t, at, length, 27);
  }

  lemma ZeroedDiffersInside(h: seq<octet>, t: seq<octet>, at: nat, length: nat)
    requires IsHeader(h) && IsHeader(t) && DifferInside(h, t, at, length) && h != t
    requires at + length <= CRC_AT || PATH_AT <= at
    ensures DifferInside(Zeroed(h), Zeroed(t), at, length) && Zeroed(h) != Zeroed(t)
  {
    FieldUntouched(h, t, at, length);
    forall k | 0 <= k < 156 && (k < at || at + length <= k) ensures Zeroed(h)[k] == Zeroed(t)[k] {
      PointwiseOutside(h, t, at, length, k);
    }
    if Zeroed(h) == Zeroed(t) {
      assert h[..24] == Zeroed(h)[..24] && t[..24] == Zeroed(t)[..24];
      assert h[28..] == Zeroed(h)[28..] && t[28..] == Zeroed(t)[28..];
      SameOutsideAndInside(h, t);
    }
  }

  // ----- damage across an edge of the field can go unnoticed -----

  function XorOctets(a: octet, b: octet): octet {
    a ^ b
  }

  function XorSeq(a: seq<octet>, b: seq<octet>): (r: seq<octet>)
    requires |a| == |b|
    ensures |r| == |a|
  {
    seq(|a|, k requires 0 <= k < |a| => XorOctets(a[k], b[k]))
  }

  lemma OctetXor(a: octet, b: octet)
    ensures XorOctets(a, b) as bv32 == Xor(a as bv32, b as bv32)
  {
  }

  // The CRC is linear in state and data together.
  lemma {:induction false} CrcLinear(x: bv32, y: bv32, a: seq<octet>, b: seq<octet>)
    requires |a| == |b|
    ensures Crc(Xor(x, y), XorSeq(a, b)) == Xor(Crc(x, a), Crc(y, b))
    decreases |a|
  {
    hide Xor, ByteStep, XorOctets;
    if a != [] {
      ByteStepLinear(x, y, a[0], b[0]);
      assert XorSeq(a, b)[1..] == XorSeq(a[1..], b[1..]);
      CrcLinear(ByteStep(x, a[0]), ByteStep(y, b[0]), a[1..], b[1..]);
    }
  }

  lemma ByteStepLinear(x: bv32, y: bv32, a: octet, b: octet)
    ensures ByteStep(Xor(x, y), XorOctets(a, b)) == Xor(ByteStep(x, a), ByteStep(y, b))
  {
    hide Xor, BitSteps, XorOctets;
    OctetXor(a, b);
    XorExchange(x, y, a as bv32, b as bv32);
    BitStepsLinear(Xor(x, a as bv32), Xor(y, b as bv32), 8);
  }

  function Zeros(n: nat): (z: seq<octet>)
    ensures |z| == n
  {
    seq(n, _ => 0)
  }

  lemma {:induction false} CrcOfZeros(x: bv32, n: nat)
    ensures Crc(x, Zeros(n)) == BitSteps(x, 8 * n)
    decreases n
  {
    hide Xor, BitStep;
    if n > 0 {
      assert Zeros(n)[1..] == Zeros(n - 1);
      ZeroOctet(x);
      CrcOfZeros(BitSteps(x, 8), n - 1);
      BitStepsAdd(x, 8, 8 * (n - 1));
    }
  }

  lemma ZeroOctet(x: bv32)
    ensures Xor(x, 0 as octet as bv32) == x
  {
  }

  lemma {:induction false} ZeroStaysZero(n: nat)
    ensures BitSteps(0, n) == 0
    decreases n
  {
    if n > 0 {
      assert BitStep(0) == 0;
      ZeroStaysZero(n - 1);
    }
  }

  lemma WordXor(a: octet, b: octet, c: octet, d: octet, a': octet, b': octet, c': octet, d': octet)
    ensures Word(XorOctets(a, a'), XorOctets(b, b'), XorOctets(c, c'), XorOctets(d, d')) == Xor(Word(a, b, c, d), Word(a', b', c', d'))
  {
  }

  // A change that the stored and the computed checksum take on alike keeps the two equal.
  lemma SilentChange(h: seq<octet>, change: seq<octet>)
    requires IsHeader(h) && IsHeader(change) && CrcField(h) == HeaderCrc(h)
    requires Crc(0, Zeroed(change)) == CrcField(change)
    ensures CrcField(XorSeq(h, change)) == HeaderCrc(XorSeq(h, change))
  {
    hide Xor, Crc, Word;
    var t := XorSeq(h, change);
    WordXor(h[24], h[25], h[26], h[27], change[24], change[25], change[26], change[27]);
    assert XorOctets(0, 0) == 0;
    assert Zeroed(t) == XorSeq(Zeroed(h), Zeroed(change));
    CrcLinear(UINT32_MAX, 0, Zeroed(h), Zeroed(change));
    XorUnit(UINT32_MAX);
    var c, d := Crc(UINT32_MAX, Zeroed(h)), Crc(0, Zeroed(change));
    XorAlgebra(c, d, UINT32_MAX);
    XorAlgebra(c, UINT32_MAX, d);
    XorAlgebra(d, UINT32_MAX, c);
  }

  function EightSteps(x: bv32): bv32 {
    BitStep(BitStep(BitStep(BitStep(BitStep(BitStep(BitStep(BitStep(x))))))))
  }

  function SixtyFourSteps(x: bv32): bv32 {
    EightSteps(EightSteps(EightSteps(EightSteps(EightSteps(EightSteps(EightSteps(EightSteps(x))))))))
  }

  lemma EightStepsRun(x: bv32)
    ensures EightSteps(x) == BitSteps(x, 8)
  {
    hide BitStep;
    assert BitSteps(x, 8) == BitSteps(BitStep(BitStep(x)), 6);
    assert BitSteps(x, 8) == BitSteps(BitStep(BitStep(BitStep(BitStep(x)))), 4);
    assert BitSteps(x, 8) == BitSteps(BitStep(BitStep(BitStep(BitStep(BitStep(BitStep(x)))))), 2);
  }

  lemma MoreEightSteps(x: bv32, n: nat)
    ensures EightSteps(BitSteps(x, n)) == BitSteps(x, n + 8)
  {
    hide EightSteps, BitSteps;
    EightStepsRun(BitSteps(x, n));
    BitStepsAdd(x, n, 8);
  }

  lemma SixtyFourStepsRun(x: bv32)
    ensures SixtyFourSteps(x) == BitSteps(x, 64)
  {
    hide EightSteps, BitSteps;
    EightStepsRun(x);
    MoreEightSteps(x, 8);
    MoreEightSteps(x, 16);
    MoreEightSteps(x, 24);
    MoreEightSteps(x, 32);
    MoreEightSteps(x, 40);
    MoreEightSteps(x, 48);
    MoreEightSteps(x, 56);
  }

  lemma MoreSixtyFourSteps(x: bv32, n: nat)
    ensures SixtyFourSteps(BitSteps(x, n)) == BitSteps(x, n + 64)
  {
    hide SixtyFourSteps, BitSteps;
    SixtyFourStepsRun(BitSteps(x, n));
    BitStepsAdd(x, n, 64);
  }

  function FiveHundredTwelveSteps(x: bv32): bv32 {
    SixtyFourSteps(SixtyFourSteps(SixtyFourSteps(SixtyFourSteps(
      SixtyFourSteps(SixtyFourSteps(SixtyFourSteps(SixtyFourSteps(x))))))))
  }

  lemma FiveHundredTwelveStepsRun(x: bv32)
    ensures FiveHundredTwelveSteps(x) == BitSteps(x, 512)
  {
    hide SixtyFourSteps, BitSteps;
    SixtyFourStepsRun(x);
    MoreSixtyFourSteps(x, 64);
    MoreSixtyFourSteps(x, 128);
    MoreSixtyFourSteps(x, 192);
    MoreSixtyFourSteps(x, 256);
    MoreSixtyFourSteps(x, 320);
    MoreSixtyFourSteps(x, 384);
    MoreSixtyFourSteps(x, 448);
  }

  function FourHundredFortyEightSteps(x: bv32): bv32 {
    SixtyFourSteps(SixtyFourSteps(SixtyFourSteps(SixtyFourSteps(SixtyFourSteps(SixtyFourSteps(SixtyFourSteps(x)))))))
  }

  lemma FourHundredFortyEightStepsRun(x: bv32)
    ensures FourHundredFortyEightSteps(x) == BitSteps(x, 448)
  {
    hide SixtyFourSteps, BitSteps;
    SixtyFourStepsRun(x);
    MoreSixtyFourSteps(x, 64);
    MoreSixtyFourSteps(x, 128);
    MoreSixtyFourSteps(x, 192);
    MoreSixtyFourSteps(x, 256);
    MoreSixtyFourSteps(x, 320);
    MoreSixtyFourSteps(x, 384);
  }

  lemma LongRun(x: bv32, middle: bv32, last: bv32)
    requires FiveHundredTwelveSteps(x) == middle && FourHundredFortyEightSteps(middle) == last
    ensures BitSteps(x, 960) == last
  {
    hide FiveHundredTwelveSteps, FourHundredFortyEightSteps, BitSteps;
    FiveHundredTwelveStepsRun(x);
    FourHundredFortyEightStepsRun(middle);
    BitStepsAdd(x, 512, 448);
  }

  lemma TailRun(x: bv32)
    ensures EightSteps(EightSteps(EightSteps(EightSteps(EightSteps(x))))) == BitSteps(x, 40)
    ensures EightSteps(EightSteps(EightSteps(EightSteps(EightSteps(EightSteps(x)))))) == BitSteps(x, 48)
    ensures EightSteps(EightSteps(EightSteps(EightSteps(EightSteps(EightSteps(EightSteps(x))))))) == BitSteps(x, 56)
    ensures EightSteps(EightSteps(EightSteps(EightSteps(SixtyFourSteps(x))))) == BitSteps(x, 96)
  {
    hide EightSteps, SixtyFourSteps, BitSteps;
    EightStepsRun(x);
    MoreEightSteps(x, 8);
    MoreEightSteps(x, 16);
    MoreEightSteps(x, 24);
    MoreEightSteps(x, 32);
    MoreEightSteps(x, 40);
    MoreEightSteps(x, 48);
    SixtyFourStepsRun(x);
    MoreEightSteps(x, 64);
    MoreEightSteps(x, 72);
    MoreEightSteps(x, 80);
    MoreEightSteps(x, 88);
  }

  lemma Middle21()
    ensures FiveHundredTwelveSteps(0x584011AC) == 0xA3B25515
  {
  }

  lemma Run21()
    ensures BitSteps(0x584011AC, 1056) == 0x00000043
  {
    hide BitSteps, FiveHundredTwelveSteps;
    Middle21();
    LongRun(0x584011AC, 0xA3B25515, 0x1D3DFE24);
    assert EightSteps(EightSteps(EightSteps(EightSteps(SixtyFourSteps(0x1D3DFE24))))) == 0x00000043;
    TailRun(0x1D3DFE24);
    BitStepsAdd(0x584011AC, 960, 96);
  }

  lemma Middle22()
    ensures FiveHundredTwelveSteps(0x786ECF60) == 0x65E6E86F
  {
  }

  lemma Run22()
    ensures BitSteps(0x786ECF60, 1056) == 0x00001B72
  {
    hide BitSteps, FiveHundredTwelveSteps;
    Middle22();
    LongRun(0x786ECF60, 0x65E6E86F, 0x6EE1EBE0);
    assert EightSteps(EightSteps(EightSteps(EightSteps(SixtyFourSteps(0x6EE1EBE0))))) == 0x00001B72;
    TailRun(0x6EE1EBE0);
    BitStepsAdd(0x786ECF60, 960, 96);
  }

  lemma Middle23()
    ensures FiveHundredTwelveSteps(0x1FDA836E) == 0xC6E4ED59
  {
  }

  lemma Run23()
    ensures BitSteps(0x1FDA836E, 1056) == 0x00632B0F
  {
    hide BitSteps, FiveHundredTwelveSteps;
    Middle23();
    LongRun(0x1FDA836E, 0xC6E4ED59, 0x0D61F3F1);
    assert EightSteps(EightSteps(EightSteps(EightSteps(SixtyFourSteps(0x0D61F3F1))))) == 0x00632B0F;
    TailRun(0x0D61F3F1);
    BitStepsAdd(0x1FDA836E, 960, 96);
  }

  lemma Middle25()
    ensures FiveHundredTwelveSteps(0xA1D1937E) == 0xEDF84156
  {
  }

  lemma Run25()
    ensures BitSteps(0xA1D1937E, 1016) == 0x6978A400
  {
    hide BitSteps, FiveHundredTwelveSteps;
    Middle25();
    LongRun(0xA1D1937E, 0xEDF84156, 0x6082F598);
    assert EightSteps(EightSteps(EightSteps(EightSteps(EightSteps(EightSteps(EightSteps(0x6082F598))))))) == 0x6978A400;
    TailRun(0x6082F598);
    BitStepsAdd(0xA1D1937E, 960, 56);
  }

  lemma Middle26()
    ensures FiveHundredTwelveSteps(0x7E4AA8F1) == 0xC2587AD1
  {
  }

  lemma Run26()
    ensures BitSteps(0x7E4AA8F1, 1008) == 0x5DA20000
  {
    hide BitSteps, FiveHundredTwelveSteps;
    Middle26();
    LongRun(0x7E4AA8F1, 0xC2587AD1, 0x842B1824);
    assert EightSteps(EightSteps(EightSteps(EightSteps(EightSteps(EightSteps(0x842B1824)))))) == 0x5DA20000;
    TailRun(0x842B1824);
    BitStepsAdd(0x7E4AA8F1, 960, 48);
  }

  lemma Middle27()
    ensures FiveHundredTwelveSteps(0x6482A1D5) == 0x39C98F35
  {
  }

  lemma Run27()
    ensures BitSteps(0x6482A1D5, 1000) == 0x45000000
  {
    hide BitSteps, FiveHundredTwelveSteps;
    Middle27();
    LongRun(0x6482A1D5, 0x39C98F35, 0x9A7C0F82);
    assert EightSteps(EightSteps(EightSteps(EightSteps(EightSteps(0x9A7C0F82))))) == 0x45000000;
    TailRun(0x9A7C0F82);
    BitStepsAdd(0x6482A1D5, 960, 40);
  }

  // For each window across an edge of the field, four change bytes that cancel out.
  function SilentPatch(at: nat): (d: seq<octet>)
    requires at + 4 <= HEADER_SIZE && !KeepsToOneSide(at, 4)
    ensures |d| == 4
  {
    if at == 21 then [0x39, 0x30, 0x2B, 0x43]
    else if at == 22 then [0x93, 0xB6, 0x72, 0x1B]
    else if at == 23 then [0xD3, 0x0F, 0x2B, 0x63]
    else if at == 25 then [0xA4, 0x78, 0x69, 0xA1]
    else if at == 26 then [0xA2, 0x5D, 0x5F, 0x68]
    else [0x45, 0x11, 0xF4, 0x0C]
  }

  function Change(at: nat, d: seq<octet>): (c: seq<octet>)
    requires |d| == 4 && at + 4 <= HEADER_SIZE
    ensures IsHeader(c)
  {
    Zeros(at) + d + Zeros(HEADER_SIZE - 4 - at)
  }

  lemma CrcOfPadded(n: nat, data: seq<octet>, m: nat)
    ensures Crc(0, Zeros(n) + data + Zeros(m)) == BitSteps(Crc(0, data), 8 * m)
  {
    hide Crc, BitSteps;
    CrcConcat(0, Zeros(n) + data, Zeros(m));
    CrcConcat(0, Zeros(n), data);
    CrcOfZeros(0, n);
    ZeroStaysZero(8 * n);
    CrcOfZeros(Crc(0, data), m);
  }

  // The first bytes of each patch outside the field, run alone.
  lemma PatchStarts()
    ensures Crc(0, [0x39, 0x30, 0x2B]) == 0x584011AC
    ensures Crc(0, [0x93, 0xB6]) == 0x786ECF60
    ensures Crc(0, [0xD3]) == 0x1FDA836E
    ensures Crc(0, [0xA1]) == 0xA1D1937E
    ensures Crc(0, [0x5F, 0x68]) == 0x7E4AA8F1
    ensures Crc(0, [0x11, 0xF4, 0x0C]) == 0x6482A1D5
  {
    CrcOfOne(0, 0x39, [0x30, 0x2B]);
    CrcOfOne(EightSteps(0x39), 0x30, [0x2B]);
    CrcOfOne(EightSteps(EightSteps(0x39) ^ 0x30), 0x2B, []);
  }

  lemma CrcOfOne(x: bv32, b: octet, rest: seq<octet>)
    ensures Crc(x, [b] + rest) == Crc(EightSteps(x ^ (b as bv32)), rest)
  {
    hide EightSteps;
    EightStepsRun(Xor(x, b as bv32));
    assert ([b] + rest)[1..] == rest;
  }

  // Change bytes that start before the field and run into it.
  lemma ChangeIntoField(at: nat, d: seq<octet>)
    requires |d| == 4 && 20 < at < 24
    ensures Crc(0, Zeroed(Change(at, d))) == BitSteps(Crc(0, d[..24 - at]), 1056)
    ensures CrcField(Change(at, d)) == if at == 21 then Word(d[3], 0, 0, 0)
                                       else if at == 22 then Word(d[2], d[3], 0, 0) else Word(d[1], d[2], d[3], 0)
  {
    hide Crc, Word, BitSteps;
    assert Zeroed(Change(at, d)) == Zeros(at) + d[..24 - at] + Zeros(132);
    CrcOfPadded(at, d[..24 - at], 132);
  }

  // Change bytes that start in the field and run past it.
  lemma ChangePastField(at: nat, d: seq<octet>)
    requires |d| == 4 && 24 < at < 28
    ensures Crc(0, Zeroed(Change(at, d))) == BitSteps(Crc(0, d[28 - at..]), 8 * (152 - at))
    ensures CrcField(Change(at, d)) == if at == 25 then Word(0, d[0], d[1], d[2])
                                       else if at == 26 then Word(0, 0, d[0], d[1]) else Word(0, 0, 0, d[0])
  {
    hide Crc, Word, BitSteps;
    assert Zeroed(Change(at, d)) == Zeros(28) + d[28 - at..] + Zeros(152 - at);
    CrcOfPadded(28, d[28 - at..], 152 - at);
  }

  lemma PatchFields()
    ensures Word(0x43, 0, 0, 0) == 0x0000_0043 && Word(0x72, 0x1B, 0, 0) == 0x0000_1B72
    ensures Word(0x0F, 0x2B, 0x63, 0) == 0x0063_2B0F && Word(0, 0xA4, 0x78, 0x69) == 0x6978_A400
    ensures Word(0, 0, 0xA2, 0x5D) == 0x5DA2_0000 && Word(0, 0, 0, 0x45) == 0x4500_0000
  {
  }

  lemma PatchIsSilent(at: nat)
    requires at + 4 <= HEADER_SIZE && !KeepsToOneSide(at, 4)
    ensures Crc(0, Zeroed(Change(at, SilentPatch(at)))) == CrcField(Change(at, SilentPatch(at)))
  {
    hide Crc, Word, BitSteps, Change, Zeroed, CrcField;
    var d := SilentPatch(at);
    PatchStarts();
    PatchFields();
    if at < 24 {
      ChangeIntoField(at, d);
      Run21();
      Run22();
      Run23();
      assert at == 21 ==> d[..3] == [0x39, 0x30, 0x2B];
      assert at == 22 ==> d[..2] == [0x93, 0xB6];
      assert at == 23 ==> d[..1] == [0xD3];
    } else {
      ChangePastField(at, d);
      Run25();
      Run26();
      Run27();
      assert at == 25 ==> d[3..] == [0xA1];
      assert at == 26 ==> d[2..] == [0x5F, 0x68];
      assert at == 27 ==> d[1..] == [0x11, 0xF4, 0x0C];
    }
  }

  function BytesOf(w: bv32): (b: seq<octet>)
    ensures |b| == 4
  {
    [(w & 0xFF) as octet, ((w >> 8) & 0xFF) as octet, ((w >> 16) & 0xFF) as octet, (w >> 24) as octet]
  }

  lemma WordOfBytes(w: bv32)
    ensures Word(BytesOf(w)[0], BytesOf(w)[1], BytesOf(w)[2], BytesOf(w)[3]) == w
  {
  }

  // A header of a 1024-byte payload with an empty path, carrying a given checksum.
  function PlainHeader(crc: bv32): (h: seq<octet>)
    ensures IsHeader(h)
  {
    MAGIC + VERSION_AND_SIZE + [0x00, 0x04, 0x00, 0x00] + Zeros(8) + BytesOf(crc) + Zeros(128)
  }

  function CommittedHeader(): (h: seq<octet>)
    ensures IsHeader(h)
  {
    PlainHeader(HeaderCrc(PlainHeader(0)))
  }

  lemma CommittedHeaderValid()
    ensures IsHeaderValid(CommittedHeader(), 1024) && CommittedHeader()[155] == 0
  {
    hide HeaderCrc, Word;
    var crc := HeaderCrc(PlainHeader(0));
    var h := PlainHeader(crc);
    assert HeaderCrc(h) == crc by { SameZeroed(crc, 0); }
    WordOfBytes(crc);
    assert h[12..16] == [0x00, 0x04, 0x00, 0x00];
    SizeOf1024();
    assert h[155] == 0 && h[155] == h[PATH_AT..][127];
  }

  lemma SizeOf1024()
    ensures LittleEndian([0x00, 0x04, 0x00, 0x00]) == 1024
  {
    assert LittleEndian([0x00, 0x00]) == 0;
    assert [0x00 as octet, 0x04, 0x00, 0x00][1..] == [0x04, 0x00, 0x00];
    assert [0x04 as octet, 0x00, 0x00][1..] == [0x00, 0x00];
  }

  lemma SameZeroed(c: bv32, d: bv32)
    ensures HeaderCrc(PlainHeader(c)) == HeaderCrc(PlainHeader(d))
  {
    hide Crc, Xor;
    assert Zeroed(PlainHeader(c)) == Zeroed(PlainHeader(d));
  }

  lemma XorWithZero(a: octet)
    ensures XorOctets(a, 0) == a && (XorOctets(a, 0x39) != a)
    ensures XorOctets(a, 0x93) != a && XorOctets(a, 0xD3) != a && XorOctets(a, 0xA4) != a
    ensures XorOctets(a, 0xA2) != a && XorOctets(a, 0x45) != a
  {
  }

  // A change that spares the checked fields and is silent keeps a valid header valid.
  lemma PatchedHeaderValid(at: nat)
    requires at + 4 <= HEADER_SIZE && !KeepsToOneSide(at, 4)
    ensures var t := XorSeq(CommittedHeader(), Change(at, SilentPatch(at)));
            && IsHeaderValid(t, 1024) && t != CommittedHeader() && DifferInside(CommittedHeader(), t, at, 4)
  {
    hide XorOctets, HeaderCrc, CrcField, CommittedHeader, Change, FieldsValid;
    CommittedHeaderValid();
    PatchIsSilent(at);
    var h, change := CommittedHeader(), Change(at, SilentPatch(at));
    SilentChange(h, change);
    PatchedInside(h, at, SilentPatch(at));
    FieldsSpared(h, XorSeq(h, change), at);
  }

  lemma PatchedInside(h: seq<octet>, at: nat, d: seq<octet>)
    requires IsHeader(h) && |d| == 4 && at + 4 <= HEADER_SIZE
    requires d[0] in {0x39, 0x93, 0xD3, 0xA4, 0xA2, 0x45}
    ensures var t := XorSeq(h, Change(at, d));
            t != h && DifferInside(h, t, at, 4)
  {
    hide XorOctets;
    var t := XorSeq(h, Change(at, d));
    forall k | 0 <= k < HEADER_SIZE && (k < at || at + 4 <= k) ensures t[k] == h[k] {
      XorWithZero(h[k]);
    }
    XorWithZero(h[at]);
    assert t[at] == XorOctets(h[at], d[0]);
  }

  // Nothing that isHeaderValid checks beside the checksum lies near the field.
  lemma FieldsSpared(h: seq<octet>, t: seq<octet>, at: nat)
    requires IsHeader(h) && IsHeader(t) && DifferInside(h, t, at, 4) && 20 < at < 28
    requires FieldsValid(h, 1024) && h[155] == 0
    ensures FieldsValid(t, 1024)
  {
    hide LittleEndian;
    assert t[..16] == t[..at][..16] == h[..at][..16] == h[..16];
    assert t[..8] == t[..16][..8] && t[8..12] == t[..16][8..12] && t[12..16] == t[..16][12..16];
    assert h[..8] == h[..16][..8] && h[8..12] == h[..16][8..12] && h[12..16] == h[..16][12..16];
    PointwiseOutside(h, t, at, 4, 155);
    assert t[PATH_AT..][127] == 0;
  }

  ghost predicate WindowAlwaysDetected(at: nat) {
    forall h, t, capacity, capacity' ::
      IsHeader(h) && IsHeader(t) && IsHeaderValid(h, capacity) && DifferInside(h, t, at, 4) && h != t
      ==> !IsHeaderValid(t, capacity')
  }

  // Exactly the windows that do not straddle an edge of the headerCrc field are safe.
  lemma DetectionIsExact(at: nat)
    requires at + 4 <= HEADER_SIZE
    ensures WindowAlwaysDetected(at) <==> KeepsToOneSide(at, 4)
  {
    hide IsHeaderValid, DifferInside;
    if KeepsToOneSide(at, 4) {
      forall h, t, capacity, capacity' |
        IsHeader(h) && IsHeader(t) && IsHeaderValid(h, capacity) && DifferInside(h, t, at, 4) && h != t
        ensures !IsHeaderValid(t, capacity')
      {
        DamageDetected(h, t, at, 4, capacity, capacity');
      }
    } else {
      CommittedHeaderValid();
      PatchedHeaderValid(at);
    }
  }

  // ----- payload ranges -----

  // containsPayloadRange, in an order of tests that cannot overflow.
  predicate ContainsPayloadRange(payloadSize: nat, offset: nat, length: nat) {
    offset <= payloadSize && length <= payloadSize - offset
  }

  // The fields byte by byte: magic CPSDFC1 and a NUL, version 1, the size of the header itself, a payload that
  // fits, and a terminated path.
  lemma FieldsExact(h: seq<octet>, capacity: nat)
    requires IsHeader(h)
    ensures FieldsValid(h, capacity)
       <==> && h[0] == 0x43 && h[1] == 0x50 && h[2] == 0x53 && h[3] == 0x44
            && h[4] == 0x46 && h[5] == 0x43 && h[6] == 0x31 && h[7] == 0
            && h[8] == 1 && h[9] == 0 && h[10] == 156 && h[11] == 0
            && 0 < PayloadSize(h) <= capacity
            && exists k :: 28 <= k < 156 && h[k] == 0
  {
    hide PayloadSize;
    MagicBytes(h);
    PathEnds(h);
  }

  lemma PathEnds(h: seq<octet>)
    requires IsHeader(h)
    ensures 0 in h[PATH_AT..] <==> exists k :: 28 <= k < 156 && h[k] == 0
  {
    if exists k :: 28 <= k < 156 && h[k] == 0 {
      var k :| 28 <= k < 156 && h[k] == 0;
      assert h[PATH_AT..][k - 28] == 0;
    }
    if 0 in h[PATH_AT..] {
      var k :| 0 <= k < |h[PATH_AT..]| && h[PATH_AT..][k] == 0;
      assert h[k + 28] == 0;
    }
  }

  lemma MagicBytes(h: seq<octet>)
    requires IsHeader(h)
    ensures h[..8] == MAGIC
       <==> && h[0] == 0x43 && h[1] == 0x50 && h[2] == 0x53 && h[3] == 0x44
            && h[4] == 0x46 && h[5] == 0x43 && h[6] == 0x31 && h[7] == 0
    ensures h[8..12] == VERSION_AND_SIZE <==> h[8] == 1 && h[9] == 0 && h[10] == 0x9C && h[11] == 0
  {
    assert h[..8] == [h[0], h[1], h[2], h[3], h[4], h[5], h[6], h[7]];
    assert h[8..12] == [h[8], h[9], h[10], h[11]];
  }

  lemma PayloadBytes(h: seq<octet>)
    requires IsHeader(h)
    ensures PayloadSize(h)
         == h[12] as int + 256 * (h[13] as int) + 65536 * (h[14] as int) + 16777216 * (h[15] as int)
  {
    var b := h[12..16];
    assert b[1..] == h[13..16] && b[1..][1..] == h[14..16] && b[1..][1..][1..] == h[15..16] && h[15..16][1..] == [];
    assert LittleEndian(h[15..16]) == h[15] as int;
    assert LittleEndian(h[14..16]) == h[14] as int + 256 * LittleEndian(h[15..16]);
    assert LittleEndian(h[13..16]) == h[13] as int + 256 * LittleEndian(h[14..16]);
  }

  // So no range that a valid header admits goes beyond the area the payload was written to.
  lemma AdmittedRangeFits(h: seq<octet>, capacity: nat, offset: nat, length: nat)
    requires IsHeader(h) && IsHeaderValid(h, capacity) && ContainsPayloadRange(PayloadSize(h), offset, length)
    ensures offset + length <= capacity
  {
  }

  // It decides whether the range's end, computed without wrap-around, stays inside the payload.
  lemma PayloadRangeExact(payloadSize: nat, offset: nat, length: nat)
    ensures ContainsPayloadRange(payloadSize, offset, length) <==> offset + length <= payloadSize
  {
  }
}
