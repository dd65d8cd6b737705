// The bitwise CRC-32 of lib/EpdFont/SdCardFontCacheFormat.h (reflected polynomial 0xEDB88320,
// section 8 of RFC 1952).
module Crc32 {
  import opened Wrappers

  type octet = bv8

  const POLYNOMIAL: bv32 := 0xEDB8_8320

  function Xor(x: bv32, y: bv32): bv32 {
    x ^ y
  }

  function Half(crc: bv32): bv32 {
    crc >> 1
  }

  // The polynomial when a one falls out, and zero otherwise: 0 - (crc & 1) is the mask.
  function Feedback(crc: bv32): bv32 {
    POLYNOMIAL & (0 - (crc & 1))
  }

  function BitStep(crc: bv32): bv32 {
    (crc >> 1) ^ (0xEDB8_8320 & (0 - (crc & 1)))
  }

  lemma BitStepParts(crc: bv32)
    ensures BitStep(crc) == Xor(Half(crc), Feedback(crc))
  {
  }

  function BitSteps(crc: bv32, n: nat): bv32
    decreases n
  {
    if n == 0 then crc else BitSteps(BitStep(crc), n - 1)
  }

  function ByteStep(crc: bv32, b: octet): bv32 {
    BitSteps(Xor(crc, b as bv32), 8)
  }

  // The state after a byte string.
  function Crc(crc: bv32, data: seq<octet>): bv32
    decreases |data|
  {
    if data == [] then crc else Crc(ByteStep(crc, data[0]), data[1..])
  }

  // The checksum of a whole string: started from all ones, and inverted at the end.
  function Checksum(data: seq<octet>): bv32 {
    Xor(Crc(0xFFFF_FFFF, data), 0xFFFF_FFFF)
  }

  // Nothing has the checksum 0, and the letter a the one that every CRC-32 gives it.
  lemma KnownChecksums()
    ensures Checksum([]) == 0 && Checksum([0x61]) == 0xE8B7_BE43
  {
    hide BitSteps;
    assert [0x61 as octet][1..] == [];
    LetterA();
    assert Crc(0xFFFF_FFFF, [0x61]) == Crc(0x1748_41BC, []);
  }

  lemma LetterA()
    ensures ByteStep(0xFFFF_FFFF, 0x61) == 0x1748_41BC
  {
    hide BitStep;
    FirstFour();
    LastFour();
    assert Xor(0xFFFF_FFFF, 0x61) == 0xFFFF_FF9E;
    FourMore(0xFFFF_FF9E, 4);
    FourMore(BitStep(BitStep(BitStep(BitStep(0xFFFF_FF9E)))), 0);
  }

  lemma FourMore(crc: bv32, n: nat)
    ensures BitSteps(crc, n + 4) == BitSteps(BitStep(BitStep(BitStep(BitStep(crc)))), n)
  {
    hide BitStep;
    OneStep(crc, n + 3);
    OneStep(BitStep(crc), n + 2);
    OneStep(BitStep(BitStep(crc)), n + 1);
    OneStep(BitStep(BitStep(BitStep(crc))), n);
  }

  lemma OneStep(crc: bv32, n: nat)
    ensures BitSteps(crc, n + 1) == BitSteps(BitStep(crc), n) && BitSteps(crc, 0) == crc
  {
  }

  lemma FirstFour()
    ensures BitStep(BitStep(BitStep(BitStep(0xFFFF_FF9E)))) == 0xAFF5_1D81
  {
  }

  lemma LastFour()
    ensures BitStep(BitStep(BitStep(BitStep(0xAFF5_1D81)))) == 0x1748_41BC
  {
  }

  // crc32Update: the nested loop.
  method Crc32Update(crc0: bv32, data: seq<octet>) returns (crc: bv32)
    ensures crc == Crc(crc0, data)
  {
    hide Xor, Half, Feedback, BitStep;
    crc := crc0;
    var i := 0;
    while i < |data|
      invariant 0 <= i <= |data|
      invariant Crc(crc0, data) == Crc(crc, data[i..])
    {
      assert data[i..][0] == data[i] && data[i..][1..] == data[i + 1..];
      ghost var before := crc;
      crc := Xor(crc, data[i] as bv32);
      var bit := 0;
      while bit < 8
        invariant 0 <= bit <= 8
        invariant ByteStep(before, data[i]) == BitSteps(crc, 8 - bit)
      {
        BitStepParts(crc);
        crc := Xor(Half(crc), Feedback(crc));
        bit := bit + 1;
      }
      i := i + 1;
    }
  }

  // ----- composition -----

  // The CRC of a concatenation continues from the state after its first part.
  lemma {:induction false} CrcConcat(crc: bv32, a: seq<octet>, b: seq<octet>)
    ensures Crc(crc, a + b) == Crc(Crc(crc, a), b)
    decreases |a|
  {
    hide ByteStep;
    if a == [] {
      assert a + b == b;
    } else {
      assert (a + b)[1..] == a[1..] + b;
      CrcConcat(ByteStep(crc, a[0]), a[1..], b);
    }
  }

  // ----- exclusive or -----

  lemma XorCancels(x: bv32, y: bv32, z: bv32)
    ensures Xor(x, z) == Xor(y, z) ==> x == y
  {
  }

  lemma XorAlgebra(x: bv32, y: bv32, z: bv32)
    ensures Xor(x, y) == Xor(y, x) && Xor(x, Xor(y, z)) == Xor(Xor(x, y), z)
  {
  }

  lemma XorUnit(x: bv32)
    ensures Xor(x, 0) == x && Xor(0, x) == x && Xor(x, x) == 0
  {
  }

  lemma XorExchange(a: bv32, b: bv32, c: bv32, d: bv32)
    ensures Xor(Xor(a, b), Xor(c, d)) == Xor(Xor(a, c), Xor(b, d))
  {
    hide Xor;
    XorAlgebra(Xor(a, b), c, d);
    XorAlgebra(a, b, c);
    XorAlgebra(b, c, d);
    XorAlgebra(a, c, b);
    XorAlgebra(Xor(a, c), b, d);
  }

  // ----- injectivity in the state -----

  // The top bit of the polynomial is set, so the bit that fell out can be read back.
  function BitStepInverse(crc: bv32): bv32 {
    if crc & 0x8000_0000 != 0 then ((crc ^ POLYNOMIAL) << 1) | 1 else crc << 1
  }

  lemma BitStepInverts(crc: bv32)
    ensures BitStepInverse(BitStep(crc)) == crc
  {
  }

  lemma {:induction false} BitStepsInjective(x: bv32, y: bv32, n: nat)
    requires BitSteps(x, n) == BitSteps(y, n)
    ensures x == y
    decreases n
  {
    hide BitStep, BitStepInverse;
    if n > 0 {
      BitStepsInjective(BitStep(x), BitStep(y), n - 1);
      BitStepInverts(x);
      BitStepInverts(y);
    }
  }

  // Fixed data never merges two different states.
  lemma {:induction false} CrcInjectiveInState(x: bv32, y: bv32, data: seq<octet>)
    requires Crc(x, data) == Crc(y, data)
    ensures x == y
    decreases |data|
  {
    hide Xor, BitSteps;
    if data != [] {
      CrcInjectiveInState(ByteStep(x, data[0]), ByteStep(y, data[0]), data[1..]);
      BitStepsInjective(Xor(x, data[0] as bv32), Xor(y, data[0] as bv32), 8);
      XorCancels(x, y, data[0] as bv32);
    }
  }

  // ----- linearity -----

  lemma HalfLinear(x: bv32, y: bv32)
    ensures Half(Xor(x, y)) == Xor(Half(x), Half(y))
  {
  }

  lemma FeedbackCases(x: bv32)
    ensures Feedback(x) == if x & 1 == 1 then POLYNOMIAL else 0
  {
  }

  lemma LowBit(x: bv32, y: bv32)
    ensures (Xor(x, y) & 1 == 1) <==> ((x & 1 == 1) != (y & 1 == 1))
  {
  }

  lemma FeedbackLinear(x: bv32, y: bv32)
    ensures Feedback(Xor(x, y)) == Xor(Feedback(x), Feedback(y))
  {
    hide Feedback, Xor;
    FeedbackCases(x);
    FeedbackCases(y);
    FeedbackCases(Xor(x, y));
    LowBit(x, y);
    XorUnit(Feedback(x));
    XorUnit(Feedback(y));
  }

  lemma BitStepLinear(x: bv32, y: bv32)
    ensures BitStep(Xor(x, y)) == Xor(BitStep(x), BitStep(y))
  {
    hide Half, Feedback, Xor, BitStep;
    BitStepParts(x);
    BitStepParts(y);
    BitStepParts(Xor(x, y));
    HalfLinear(x, y);
    FeedbackLinear(x, y);
    XorExchange(Half(x), Half(y), Feedback(x), Feedback(y));
  }

  lemma {:induction false} BitStepsLinear(x: bv32, y: bv32, n: nat)
    ensures BitSteps(Xor(x, y), n) == Xor(BitSteps(x, n), BitSteps(y, n))
    decreases n
  {
    hide BitStep, Xor;
    if n > 0 {
      BitStepLinear(x, y);
      BitStepsLinear(BitStep(x), BitStep(y), n - 1);
    }
  }

  lemma {:induction false} BitStepsAdd(x: bv32, m: nat, n: nat)
    ensures BitSteps(BitSteps(x, m), n) == BitSteps(x, m + n)
    decreases m
  {
    hide BitStep;
    if m > 0 {
      BitStepsAdd(BitStep(x), m - 1, n);
    }
  }

  // ----- four bytes as one word -----

  // A word shifted down n times, as long as only zeros fall out.
  function Halves(x: bv32, n: nat): bv32
    decreases n
  {
    if n == 0 then x else Halves(Half(x), n - 1)
  }

  ghost predicate ZerosFallOut(x: bv32, n: nat)
    decreases n
  {
    n == 0 || (x & 1 == 0 && ZerosFallOut(Half(x), n - 1))
  }

  lemma {:induction false} ZerosOnlyShift(x: bv32, n: nat)
    requires ZerosFallOut(x, n)
    ensures BitSteps(x, n) == Halves(x, n)
    decreases n
  {
    hide Half, Xor, Feedback, BitStep;
    if n > 0 {
      BitStepParts(x);
      FeedbackCases(x);
      XorUnit(Half(x));
      ZerosOnlyShift(Half(x), n - 1);
    }
  }

  predicate LowByteClear(x: bv32) {
    x & 0xFF == 0
  }

  function NextByte(x: bv32): bv32 {
    x >> 8
  }

  lemma EightShifts(x: bv32)
    requires LowByteClear(x)
    ensures ZerosFallOut(x, 8) && Halves(x, 8) == NextByte(x)
  {
    hide ZerosFallOut, Halves;
    ShiftsCompose(x);
    EightZeros(x);
  }

  lemma EightZeros(x: bv32)
    requires x & 1 == 0 && (x >> 1) & 1 == 0 && (x >> 2) & 1 == 0 && (x >> 3) & 1 == 0
    requires (x >> 4) & 1 == 0 && (x >> 5) & 1 == 0 && (x >> 6) & 1 == 0 && (x >> 7) & 1 == 0
    requires Half(x) == x >> 1 && Half(x >> 1) == x >> 2 && Half(x >> 2) == x >> 3 && Half(x >> 3) == x >> 4
    requires Half(x >> 4) == x >> 5 && Half(x >> 5) == x >> 6 && Half(x >> 6) == x >> 7 && Half(x >> 7) == x >> 8
    ensures ZerosFallOut(x, 8) && Halves(x, 8) == x >> 8
  {
    hide Half;
    assert ZerosFallOut(x >> 7, 1) && Halves(x >> 7, 1) == x >> 8;
    assert ZerosFallOut(x >> 6, 2) && Halves(x >> 6, 2) == x >> 8;
    assert ZerosFallOut(x >> 5, 3) && Halves(x >> 5, 3) == x >> 8;
    assert ZerosFallOut(x >> 4, 4) && Halves(x >> 4, 4) == x >> 8;
    assert ZerosFallOut(x >> 3, 5) && Halves(x >> 3, 5) == x >> 8;
    assert ZerosFallOut(x >> 2, 6) && Halves(x >> 2, 6) == x >> 8;
    assert ZerosFallOut(x >> 1, 7) && Halves(x >> 1, 7) == x >> 8;
  }

  lemma ShiftsCompose(x: bv32)
    requires x & 0xFF == 0
    ensures x & 1 == 0 && (x >> 1) & 1 == 0 && (x >> 2) & 1 == 0 && (x >> 3) & 1 == 0
    ensures (x >> 4) & 1 == 0 && (x >> 5) & 1 == 0 && (x >> 6) & 1 == 0 && (x >> 7) & 1 == 0
    ensures Half(x) == x >> 1 && Half(x >> 1) == x >> 2 && Half(x >> 2) == x >> 3 && Half(x >> 3) == x >> 4
    ensures Half(x >> 4) == x >> 5 && Half(x >> 5) == x >> 6 && Half(x >> 6) == x >> 7 && Half(x >> 7) == x >> 8
  {
  }

  // Four bytes, the first in the low bits.
  function Word(a: octet, b: octet, c: octet, d: octet): bv32 {
    (a as bv32) | ((b as bv32) << 8) | ((c as bv32) << 16) | ((d as bv32) << 24)
  }

  lemma WordShifts(a: octet, b: octet, c: octet, d: octet)
    ensures Word(a, b, c, d) == Xor(a as bv32, Word(0, b, c, d)) && LowByteClear(Word(0, b, c, d))
    ensures NextByte(Word(0, b, c, d)) == Word(b, c, d, 0)
  {
  }

  lemma WordInjective(a: octet, b: octet, c: octet, d: octet, a': octet, b': octet, c': octet, d': octet)
    requires Word(a, b, c, d) == Word(a', b', c', d')
    ensures a == a' && b == b' && c == c' && d == d'
  {
  }

  // Running a word through eight steps takes in its first byte and brings the next one down: a byte
  // that enters after k bytes acts as if it had been in place 8k bits up from the start.
  lemma ByteFromWord(crc: bv32, a: octet, b: octet, c: octet, d: octet)
    ensures BitSteps(Xor(crc, Word(a, b, c, d)), 8) == Xor(ByteStep(crc, a), Word(b, c, d, 0))
  {
    hide Word, Xor, BitSteps, Halves, ZerosFallOut, LowByteClear, NextByte;
    WordShifts(a, b, c, d);
    XorAlgebra(crc, a as bv32, Word(0, b, c, d));
    BitStepsLinear(Xor(crc, a as bv32), Word(0, b, c, d), 8);
    EightShifts(Word(0, b, c, d));
    ZerosOnlyShift(Word(0, b, c, d), 8);
  }

  // Four bytes amount to one word, run through 32 bit steps.
  lemma FourBytes(crc: bv32, w: seq<octet>)
    requires |w| == 4
    ensures Crc(crc, w) == BitSteps(Xor(crc, Word(w[0], w[1], w[2], w[3])), 32)
  {
    hide Word, BitSteps, ByteStep, Xor;
    var s1 := ByteStep(crc, w[0]);
    var s2 := ByteStep(s1, w[1]);
    var s3 := ByteStep(s2, w[2]);
    var s4 := ByteStep(s3, w[3]);
    var x := Xor(crc, Word(w[0], w[1], w[2], w[3]));
    ByteFromWord(crc, w[0], w[1], w[2], w[3]);
    ByteFromWord(s1, w[1], w[2], w[3], 0);
    ByteFromWord(s2, w[2], w[3], 0, 0);
    ByteFromWord(s3, w[3], 0, 0, 0);
    ZeroWord(s4);
    BitStepsAdd(x, 8, 8);
    BitStepsAdd(x, 16, 8);
    BitStepsAdd(x, 24, 8);
    CrcOfFour(crc, w);
  }

  lemma CrcOfFour(crc: bv32, w: seq<octet>)
    requires |w| == 4
    ensures Crc(crc, w) == ByteStep(ByteStep(ByteStep(ByteStep(crc, w[0]), w[1]), w[2]), w[3])
  {
    hide ByteStep;
    var s1 := ByteStep(crc, w[0]);
    var s2 := ByteStep(s1, w[1]);
    var s3 := ByteStep(s2, w[2]);
    assert w[1..][1..] == w[2..] && w[2..][1..] == w[3..] && w[3..][1..] == [];
    assert Crc(s3, w[3..]) == Crc(ByteStep(s3, w[3]), []);
    assert Crc(s2, w[2..]) == Crc(s3, w[3..]);
    assert Crc(s1, w[1..]) == Crc(s2, w[2..]);
  }

  lemma ZeroWord(crc: bv32)
    ensures Xor(crc, Word(0, 0, 0, 0)) == crc
  {
  }

  lemma FourBytesInjective(crc: bv32, v: seq<octet>, w: seq<octet>)
    requires |v| == |w| == 4 && Crc(crc, v) == Crc(crc, w)
    ensures v == w
  {
    hide Word, BitSteps, Crc, Xor;
    var x, y := Word(v[0], v[1], v[2], v[3]), Word(w[0], w[1], w[2], w[3]);
    FourBytes(crc, v);
    FourBytes(crc, w);
    BitStepsInjective(Xor(crc, x), Xor(crc, y), 32);
    XorAlgebra(crc, x, 0);
    XorAlgebra(crc, y, 0);
    XorCancels(x, y, crc);
    WordInjective(v[0], v[1], v[2], v[3], w[0], w[1], w[2], w[3]);
  }

  // From a fixed state, windows of up to four bytes have pairwise different CRCs.
  lemma WindowInjective(crc: bv32, v: seq<octet>, w: seq<octet>)
    requires |v| == |w| <= 4 && Crc(crc, v) == Crc(crc, w)
    ensures v == w
  {
    hide Crc;
    var pad := seq(4 - |v|, _ => 0 as octet);
    CrcConcat(crc, v, pad);
    CrcConcat(crc, w, pad);
    FourBytesInjective(crc, v + pad, w + pad);
    assert v == (v + pad)[..|v|] && w == (w + pad)[..|v|];
  }

  // The strings differ at most inside [at, at + length).
  ghost predicate DifferInside(s: seq<octet>, t: seq<octet>, at: nat, length: nat) {
    && |s| == |t| && at + length <= |s|
    && s[..at] == t[..at] && s[at + length..] == t[at + length..]
  }

  // A change confined to four consecutive bytes always changes the CRC.
  lemma BurstDetected(crc: bv32, s: seq<octet>, t: seq<octet>, at: nat, length: nat)
    requires DifferInside(s, t, at, length) && length <= 4
    ensures Crc(crc, s) == Crc(crc, t) <==> s == t
  {
    hide Crc;
    if Crc(crc, s) == Crc(crc, t) {
      var pre, post := s[..at], s[at + length..];
      var v, w := s[at..at + length], t[at..at + length];
      assert s == pre + v + post && t == pre + w + post;
      CrcConcat(crc, pre + v, post);
      CrcConcat(crc, pre + w, post);
      CrcConcat(crc, pre, v);
      CrcConcat(crc, pre, w);
      CrcInjectiveInState(Crc(crc, pre + v), Crc(crc, pre + w), post);
      WindowInjective(Crc(crc, pre), v, w);
    }
  }
}
