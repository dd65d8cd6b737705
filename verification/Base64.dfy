// The Base64 pair of simulator/missing_symbols.cpp, against section 4 of RFC 4648.
module Base64 {
  import opened Wrappers

  type sextet = s: int | 0 <= s < 64

  const PAD: byte := 0x3D  // '='

  // kB64Alphabet, by position.
  function Letter(i: sextet): (c: byte)
    ensures c != 0 && c != PAD && !IsSpace(c)
  {
    if i < 26 then 0x41 + i else if i < 52 then 0x61 + (i - 26) else if i < 62 then 0x30 + (i - 52)
    else if i == 62 then 0x2B else 0x2F
  }

  // The position of a character in the alphabet, or -1.
  function Value(c: byte): (v: int)
    ensures -1 <= v < 64
  {
    if 0x41 <= c <= 0x5A then c - 0x41 else if 0x61 <= c <= 0x7A then c - 0x61 + 26
    else if 0x30 <= c <= 0x39 then c - 0x30 + 52 else if c == 0x2B then 62 else if c == 0x2F then 63 else -1
  }

  predicate IsSpace(c: byte) {
    c == 0x0A || c == 0x0D || c == 0x20 || c == 0x09
  }

  lemma ValueOfLetter(i: sextet)
    ensures Value(Letter(i)) == i
  {
  }

  lemma LetterOfValue(c: byte)
    ensures Value(c) >= 0 ==> Letter(Value(c)) == c
  {
  }

  // ----- the reference: a stream of bits, cut into sixes and into eights -----

  // The byte made of the last `bits` bits of one sextet and the first 8 - bits bits of the next.
  function Join(bits: nat, a: int, b: int): (r: byte)
    requires 0 <= a < 64 && 0 <= b < 64
  {
    if bits == 6 then a * 4 + b / 16 else if bits == 4 then a % 16 * 16 + b / 4 else a % 4 * 64 + b
  }

  // Byte k straddles two sextets, by its place in its group of three.
  function ByteAt(s: seq<sextet>, k: nat): (b: byte)
    requires 8 * k + 8 <= 6 * |s|
  {
    var g := 4 * (k / 3);
    if k % 3 == 0 then Join(6, s[g], s[g + 1])
    else if k % 3 == 1 then Join(4, s[g + 1], s[g + 2])
    else Join(2, s[g + 2], s[g + 3])
  }

  // As many whole bytes as the sextets hold.
  function Bytes(s: seq<sextet>): (r: seq<byte>)
    ensures |r| == 6 * |s| / 8
  {
    seq(6 * |s| / 8, k requires 0 <= k < 6 * |s| / 8 => ByteAt(s, k))
  }

  function ByteOrZero(x: seq<byte>, k: nat): byte {
    if k < |x| then x[k] else 0
  }

  // Sextet j (0..3) of a group of three bytes.
  function Split(b0: byte, b1: byte, b2: byte, j: nat): (s: sextet)
  {
    if j == 0 then b0 / 4 else if j == 1 then b0 % 4 * 16 + b1 / 16 else if j == 2 then b1 % 16 * 4 + b2 / 64 else b2 % 64
  }

  // Sextet i of a byte string; missing bytes count as zero.
  function SextetAt(x: seq<byte>, i: nat): sextet {
    var g := 3 * (i / 4);
    Split(ByteOrZero(x, g), ByteOrZero(x, g + 1), ByteOrZero(x, g + 2), i % 4)
  }

  // As many sextets as it takes to hold the bytes.
  function Sextets(x: seq<byte>): (r: seq<sextet>)
    ensures |r| == (8 * |x| + 5) / 6
  {
    seq((8 * |x| + 5) / 6, i requires 0 <= i => SextetAt(x, i))
  }

  // Cutting into sixes and back loses nothing.
  lemma BytesOfSextets(x: seq<byte>)
    ensures Bytes(Sextets(x)) == x
  {
    var s := Sextets(x);
    assert |Bytes(s)| == |x|;
    forall k | 0 <= k < |x| ensures Bytes(s)[k] == x[k] {
      ByteOfSextets(x, k);
    }
  }

  lemma Rejoin(b0: byte, b1: byte, b2: byte)
    ensures Join(6, Split(b0, b1, b2, 0), Split(b0, b1, b2, 1)) == b0
    ensures Join(4, Split(b0, b1, b2, 1), Split(b0, b1, b2, 2)) == b1
    ensures Join(2, Split(b0, b1, b2, 2), Split(b0, b1, b2, 3)) == b2
  {
  }

  lemma Quotients(q: nat)
    ensures (4 * q) / 4 == q && (4 * q + 1) / 4 == q && (4 * q + 2) / 4 == q && (4 * q + 3) / 4 == q
    ensures (4 * q) % 4 == 0 && (4 * q + 1) % 4 == 1 && (4 * q + 2) % 4 == 2 && (4 * q + 3) % 4 == 3
  {
  }

  lemma ByteOfSextets(x: seq<byte>, k: nat)
    requires k < |x|
    ensures 8 * k + 8 <= 6 * |Sextets(x)| && ByteAt(Sextets(x), k) == x[k]
  {
    hide Join, Split;
    var q := k / 3;
    assert k == 3 * q + k % 3;
    Quotients(q);
    Rejoin(ByteOrZero(x, 3 * q), ByteOrZero(x, 3 * q + 1), ByteOrZero(x, 3 * q + 2));
  }

  // The encoding: the letters of the sextets, padded to a multiple of four.
  function Encoded(x: seq<byte>): (r: seq<byte>)
    ensures |r| == 4 * ((|x| + 2) / 3)
  {
    seq(4 * ((|x| + 2) / 3), i requires 0 <= i => if i < |Sextets(x)| then Letter(Sextets(x)[i]) else PAD)
  }

  // base64Encode_: three bytes at a time through a 24-bit word.
  method Base64Encode(input: seq<byte>) returns (out: seq<byte>)
    ensures out == Encoded(input)
  {
    hide Encoded, Letter, Split;
    out := [];
    var n := |input|;
    var i := 0;
    EncodedLength(input);
    while i < n
      invariant 0 <= i && i % 3 == 0 && i <= n + 2
      invariant |out| == 4 * (i / 3) <= |Encoded(input)| && out == Encoded(input)[..|out|]
      invariant i >= n ==> |out| == |Encoded(input)|
      decreases n - i
    {
      var b0 := input[i];
      var b1: byte := if i + 1 < n then input[i + 1] else 0;
      var b2: byte := if i + 2 < n then input[i + 2] else 0;
      var triple := b0 * 0x1_0000 + b1 * 0x100 + b2;
      EncodedPrefix(input, i / 3);
      Triple(b0, b1, b2);
      var quad := [Letter(triple / 0x4_0000 % 64), Letter(triple / 0x1000 % 64),
                   if i + 1 < n then Letter(triple / 0x40 % 64) else PAD,
                   if i + 2 < n then Letter(triple % 64) else PAD];
      out := out + quad;
      i := i + 3;
    }
  }

  // One group of letters more.
  lemma EncodedPrefix(x: seq<byte>, q: nat)
    requires 3 * q < |x|
    ensures var g := 3 * q;
            var b0, b1, b2 := x[g], ByteOrZero(x, g + 1), ByteOrZero(x, g + 2);
            && 4 * q + 4 <= |Encoded(x)| && (g + 3 >= |x| ==> 4 * q + 4 == |Encoded(x)|)
            && Encoded(x)[..4 * q + 4]
               == Encoded(x)[..4 * q]
                  + [Letter(Split(b0, b1, b2, 0)), Letter(Split(b0, b1, b2, 1)),
                     if g + 1 < |x| then Letter(Split(b0, b1, b2, 2)) else PAD,
                     if g + 2 < |x| then Letter(Split(b0, b1, b2, 3)) else PAD]
  {
    hide Encoded, Letter, Split;
    EncodedGroup(x, q);
    EncodedLength(x);
  }

  lemma EncodedLength(x: seq<byte>)
    ensures |Encoded(x)| == 4 * ((|x| + 2) / 3)
  {
  }

  // The shifts and masks of the encoder cut the 24-bit word into the group's four sextets.
  lemma Triple(b0: byte, b1: byte, b2: byte)
    ensures var triple := b0 * 0x1_0000 + b1 * 0x100 + b2;
            && triple / 0x4_0000 % 64 == Split(b0, b1, b2, 0)
            && triple / 0x1000 % 64 == Split(b0, b1, b2, 1)
            && triple / 0x40 % 64 == Split(b0, b1, b2, 2)
            && triple % 64 == Split(b0, b1, b2, 3)
  {
    var triple := b0 * 0x1_0000 + b1 * 0x100 + b2;
    DivMod(triple, 0x4_0000, b0 / 4, b0 % 4 * 0x1_0000 + b1 * 0x100 + b2);
    DivMod(triple, 0x1000, b0 * 16 + b1 / 16, b1 % 16 * 0x100 + b2);
    DivMod(b0 * 16 + b1 / 16, 64, b0 / 4, b0 % 4 * 16 + b1 / 16);
    DivMod(triple, 64, b0 * 1024 + b1 * 4 + b2 / 64, b2 % 64);
    DivMod(b0 * 1024 + b1 * 4 + b2 / 64, 64, b0 * 16 + b1 / 16, b1 % 16 * 4 + b2 / 64);
  }

  lemma EncodedGroup(x: seq<byte>, q: nat)
    requires 3 * q < |x|
    ensures var r, g := Encoded(x), 3 * q;
            var b0, b1, b2 := x[g], ByteOrZero(x, g + 1), ByteOrZero(x, g + 2);
            && 4 * q + 4 <= |r|
            && r[4 * q] == Letter(Split(b0, b1, b2, 0))
            && r[4 * q + 1] == Letter(Split(b0, b1, b2, 1))
            && r[4 * q + 2] == (if g + 1 < |x| then Letter(Split(b0, b1, b2, 2)) else PAD)
            && r[4 * q + 3] == (if g + 2 < |x| then Letter(Split(b0, b1, b2, 3)) else PAD)
  {
    hide Letter, Split;
    Quotients(q);
  }

  // ----- decoding -----

  // What counts of an encoded text: everything before the first pad, without white space.
  function Payload(text: seq<byte>): seq<byte>
    decreases |text|
  {
    if text == [] || text[0] == PAD then []
    else if IsSpace(text[0]) then Payload(text[1..])
    else [text[0]] + Payload(text[1..])
  }

  predicate AllLetters(s: seq<byte>) {
    forall k :: 0 <= k < |s| ==> Value(s[k]) >= 0
  }

  function Values(s: seq<byte>): (r: seq<sextet>)
    requires AllLetters(s)
    ensures |r| == |s|
  {
    seq(|s|, k requires 0 <= k < |s| => Value(s[k]))
  }

  // Decoding fails exactly when something before the first pad is neither a letter nor white space.
  function Decoded(text: seq<byte>): Option<seq<byte>> {
    var s := Payload(text);
    if AllLetters(s) then Some(Bytes(Values(s))) else None
  }

  // The static lookup table of base64Decode_.
  method BuildTable() returns (table: array<int>)
    ensures fresh(table) && table.Length == 256
    ensures forall c: byte :: table[c] == Value(c)
  {
    table := new int[256](_ => -1);
    var i := 0;
    while i < 64
      invariant 0 <= i <= 64 && fresh(table)
      invariant forall c: byte :: table[c] == if 0 <= Value(c) < i then Value(c) else -1
    {
      ValueOfLetter(i);
      forall c: byte | Value(c) == i ensures c == Letter(i) {
        LetterOfValue(c);
      }
      table[Letter(i)] := i;
      i := i + 1;
    }
  }

  // base64Decode_ on a C string (no byte of the text is zero); null when there is none. The 32-bit
  // accumulator is never masked: bits already written out stay above the ones still to come.
  method Base64Decode(text: Option<seq<byte>>) returns (ok: bool, out: seq<byte>)
    ensures text.None? ==> !ok && out == []
    ensures text.Some? ==> (ok <==> Decoded(text.value).Some?)
    ensures ok ==> out == Decoded(text.value).value
  {
    hide Bytes, Value, IsSpace, Payload, Accumulated, AllLetters, Values;
    var table := BuildTable();
    out := [];
    if text.None? { return false, out; }
    var buf: nat, bits: nat := 0, 0;
    var p := 0;
    ghost var s: seq<sextet> := [];
    Start();
    while p < |text.value|
      invariant 0 <= p <= |text.value|
      invariant forall c: byte :: table[c] == Value(c)
      invariant Accumulated(s, buf, bits, out)
      invariant Remaining(text.value, s, text.value[p..])
    {
      var c := text.value[p];
      ghost var rest := text.value[p..];
      assert rest[0] == c && rest[1..] == text.value[p + 1..];
      p := p + 1;
      if c == PAD || IsSpace(c) {
        if c == PAD {
          Finish(text.value, s, rest, buf, bits, out);
          return true, out;
        }
        SkipSpace(text.value, s, rest);
        continue;
      }
      var v := table[c];
      TakeLetter(text.value, s, rest);
      if v < 0 {
        return false, out;
      }
      AccumulateStep(s, buf, bits, out, v);
      buf := (buf * 64 + v) % 0x1_0000_0000;
      bits := bits + 6;
      if bits >= 8 {
        bits := bits - 8;
        out := out + [buf / Power(bits) % 256];
      }
      s := s + [v];
    }
    Finish(text.value, s, text.value[p..], buf, bits, out);
    return true, out;
  }

  // The letters of the text are the sextets taken so far and then the letters of the rest.
  ghost predicate Remaining(text: seq<byte>, s: seq<sextet>, rest: seq<byte>) {
    && (AllLetters(Payload(text)) <==> AllLetters(Payload(rest)))
    && (AllLetters(Payload(text)) ==> Values(Payload(text)) == s + Values(Payload(rest)))
  }

  lemma Start()
    ensures Accumulated([], 0, 0, [])
    ensures forall text :: Remaining(text, [], text[0..])
  {
    forall text: seq<byte> ensures Remaining(text, [], text[0..]) {
      assert text[0..] == text;
    }
  }

  lemma SkipSpace(text: seq<byte>, s: seq<sextet>, rest: seq<byte>)
    requires Remaining(text, s, rest) && rest != [] && rest[0] != PAD && IsSpace(rest[0])
    ensures Remaining(text, s, rest[1..])
  {
  }

  lemma TakeLetter(text: seq<byte>, s: seq<sextet>, rest: seq<byte>)
    requires Remaining(text, s, rest) && rest != [] && rest[0] != PAD && !IsSpace(rest[0])
    ensures Value(rest[0]) < 0 ==> Decoded(text).None?
    ensures Value(rest[0]) >= 0 ==> Remaining(text, s + [Value(rest[0])], rest[1..])
  {
    hide Value, AllLetters, Values;
    PayloadStep(rest);
    LettersStep(rest[0], Payload(rest[1..]));
    if AllLetters(Payload(rest)) {
      assert s + ([Value(rest[0])] + Values(Payload(rest[1..]))) == s + [Value(rest[0])] + Values(Payload(rest[1..]));
    }
  }

  lemma Finish(text: seq<byte>, s: seq<sextet>, rest: seq<byte>, buf: nat, bits: nat, out: seq<byte>)
    requires Remaining(text, s, rest) && (rest == [] || rest[0] == PAD) && Accumulated(s, buf, bits, out)
    ensures Decoded(text) == Some(out)
  {
    assert Payload(rest) == [];
    assert Values(Payload(text)) == s;
  }

  // 2 to the power of the bit counts that occur.
  function Power(bits: nat): (r: nat)
    ensures r > 0
  {
    if bits == 0 then 1 else if bits == 2 then 4 else if bits == 4 then 16 else 64
  }

  // After the sextets s: the whole bytes are out, and the last few bits wait at the bottom of buf.
  ghost predicate Accumulated(s: seq<sextet>, buf: nat, bits: nat, out: seq<byte>) {
    && out == Bytes(s)
    && 6 * |s| == 8 * |out| + bits && bits in {0, 2, 4, 6}
    && (bits > 0 ==> s != [] && buf % Power(bits) == s[|s| - 1] % Power(bits))
  }

  lemma AccumulateStep(s: seq<sextet>, buf: nat, bits: nat, out: seq<byte>, v: sextet)
    requires Accumulated(s, buf, bits, out)
    ensures bits in {0, 2, 4, 6}
    ensures var buf' := (buf * 64 + v) % 0x1_0000_0000;
            && (bits == 0 ==> Accumulated(s + [v], buf', 6, out))
            && (bits > 0 ==> Accumulated(s + [v], buf', bits - 2, out + [buf' / Power(bits - 2) % 256]))
  {
    hide Bytes, Join, Power;
    if bits == 0 {
      BytesGrow(s, v, 0);
      LowestBits(buf, v, 6);
    } else {
      BytesGrow(s, v, bits);
      LowestBits(buf, v, bits - 2);
      LowBits(buf * 64 + v, bits - 2);
      NextByte(buf, bits, s[|s| - 1], v);
    }
  }

  lemma DivMod(n: int, m: int, q: int, r: int)
    requires m in {1, 4, 16, 64, 256, 0x1000, 0x4_0000} && n == m * q + r && 0 <= r < m
    ensures n / m == q && n % m == r
  {
    if m == 1 {
    } else if m == 4 {
    } else if m == 16 {
    } else if m == 64 {
    } else if m == 256 {
    } else if m == 0x1000 {
    } else {
    }
  }

  // Dropping the bits above the 32nd leaves every bit that will still be read.
  lemma LowBits(x: nat, bits: nat)
    requires bits in {0, 2, 4}
    ensures x % 0x1_0000_0000 / Power(bits) % 256 == x / Power(bits) % 256
  {
    var q, r := x / 0x1_0000_0000, x % 0x1_0000_0000;
    var a, b := r / Power(bits), r % Power(bits);
    var c := if bits == 0 then q * 0x1_0000_0000 else if bits == 2 then q * 0x4000_0000 else q * 0x1000_0000;
    assert x == Power(bits) * (c + a) + b;
    DivMod(x, Power(bits), c + a, b);
    var d := if bits == 0 then q * 0x100_0000 else if bits == 2 then q * 0x40_0000 else q * 0x10_0000;
    DivMod(c + a, 256, d + a / 256, a % 256);
  }

  lemma LowestBits(x: nat, v: sextet, bits: nat)
    requires bits in {0, 2, 4, 6}
    ensures (x * 64 + v) % 0x1_0000_0000 % Power(bits) == v % Power(bits)
  {
    var n := x * 64 + v;
    var q, r := n / 0x1_0000_0000, n % 0x1_0000_0000;
    assert r == 64 * (x - q * 0x400_0000) + v;
    var m := Power(bits);
    var y := if bits == 0 then 64 * (x - q * 0x400_0000) else if bits == 2 then 16 * (x - q * 0x400_0000)
             else if bits == 4 then 4 * (x - q * 0x400_0000) else x - q * 0x400_0000;
    assert r == m * (y + v / m) + v % m;
    DivMod(r, m, y + v / m, v % m);
  }

  lemma NextByte(buf: nat, bits: nat, last: sextet, v: sextet)
    requires bits in {2, 4, 6} && buf % Power(bits) == last % Power(bits)
    ensures (buf * 64 + v) / Power(bits - 2) % 256 == Join(bits, last, v)
  {
    var q, low := buf / Power(bits), last % Power(bits);
    assert buf == Power(bits) * q + low;
    var joined := Join(bits, last, v);
    var m := Power(bits - 2);
    JoinSplits(bits, last, v);
    assert buf * 64 + v == m * (256 * q + joined) + v % m;
    DivMod(buf * 64 + v, m, 256 * q + joined, v % m);
    DivMod(256 * q + joined, 256, q, joined);
  }

  lemma JoinSplits(bits: nat, last: sextet, v: sextet)
    requires bits in {2, 4, 6}
    ensures last % Power(bits) * 64 + v == Power(bits - 2) * Join(bits, last, v) + v % Power(bits - 2)
  {
  }

  // One sextet more: a byte more, unless the stream stood at a byte boundary.
  lemma BytesGrow(s: seq<sextet>, v: sextet, bits: nat)
    requires 6 * |s| == 8 * |Bytes(s)| + bits && bits in {0, 2, 4, 6}
    ensures bits == 0 ==> Bytes(s + [v]) == Bytes(s)
    ensures bits > 0 ==> s != [] && Bytes(s + [v]) == Bytes(s) + [Join(bits, s[|s| - 1], v)]
  {
    hide Join;
    var t, k := s + [v], |Bytes(s)|;
    forall j | 0 <= j < k ensures Bytes(t)[j] == Bytes(s)[j] {
      assert ByteAt(t, j) == ByteAt(s, j);
    }
  }

  lemma PayloadStep(text: seq<byte>)
    requires text != [] && text[0] != PAD && !IsSpace(text[0])
    ensures Payload(text) == [text[0]] + Payload(text[1..])
  {
  }

  lemma LettersStep(c: byte, rest: seq<byte>)
    ensures AllLetters([c] + rest) <==> Value(c) >= 0 && AllLetters(rest)
    ensures AllLetters([c] + rest) ==> Values([c] + rest) == [Value(c)] + Values(rest)
  {
    hide Value;
    if AllLetters([c] + rest) {
      assert Value(([c] + rest)[0]) >= 0;
      forall k | 0 <= k < |rest| ensures Value(rest[k]) >= 0 {
        assert rest[k] == ([c] + rest)[k + 1];
      }
    }
  }

  // ----- round trips -----

  lemma {:induction false} PayloadOfLetters(s: seq<sextet>, tail: seq<byte>)
    requires tail == [] || tail[0] == PAD
    ensures var text := seq(|s|, k requires 0 <= k < |s| => Letter(s[k])) + tail;
            && |Payload(text)| == |s|
            && forall k :: 0 <= k < |s| ==> Payload(text)[k] == Letter(s[k])
  {
    hide Letter;
    var text := seq(|s|, k requires 0 <= k < |s| => Letter(s[k])) + tail;
    if s != [] {
      PayloadOfLetters(s[1..], tail);
      assert text[1..] == seq(|s| - 1, k requires 0 <= k < |s| - 1 => Letter(s[1..][k])) + tail;
      assert text[0] == Letter(s[0]);
    } else {
      assert text == tail;
    }
  }

  // Decoding an encoding gives back the bytes; the encoding has 4 * ceil(n / 3) characters.
  lemma RoundTrip(x: seq<byte>)
    ensures Decoded(Encoded(x)) == Some(x) && |Encoded(x)| == 4 * ((|x| + 2) / 3)
  {
    hide Letter, Value, Bytes;
    var s := Sextets(x);
    var letters := seq(|s|, k requires 0 <= k < |s| => Letter(s[k]));
    var pads := seq(|Encoded(x)| - |s|, _ => PAD);
    assert Encoded(x) == letters + pads;
    PayloadOfLetters(s, pads);
    forall k | 0 <= k < |s| ensures Value(Payload(Encoded(x))[k]) == s[k] {
      ValueOfLetter(s[k]);
    }
    assert Values(Payload(Encoded(x))) == s;
    BytesOfSextets(x);
  }

  // White space may be inserted anywhere.
  lemma {:induction false} SpaceIgnored(text: seq<byte>, at: nat, c: byte)
    requires at <= |text| && c as char in "\n\r\t "
    ensures Payload(text[..at] + [c] + text[at..]) == Payload(text)
    ensures Decoded(text[..at] + [c] + text[at..]) == Decoded(text)
    decreases at
  {
    hide Bytes, Value;
    var spaced := text[..at] + [c] + text[at..];
    if at == 0 {
      assert spaced[1..] == text;
    } else {
      assert spaced[0] == text[0];
      assert spaced[1..] == text[1..][..at - 1] + [c] + text[1..][at - 1..];
      SpaceIgnored(text[1..], at - 1, c);
    }
  }

  // ----- obfuscateToBase64 and deobfuscateFromBase64 -----

  method ObfuscateToBase64(plaintext: seq<byte>) returns (r: seq<byte>)
    ensures r == Encoded(plaintext)
  {
    if plaintext == [] {
      return [];
    }
    r := Base64Encode(plaintext);
  }

  method DeobfuscateFromBase64(encoded: Option<seq<byte>>) returns (ok: bool, r: seq<byte>)
    ensures ok <==> encoded.Some? && encoded.value != [] && Decoded(encoded.value).Some?
    ensures r == if ok then Decoded(encoded.value).value else []
  {
    if encoded.None? || encoded.value == [] {
      return false, [];
    }
    ok, r := Base64Decode(encoded);
    if !ok {
      r := [];
    }
  }

  // The wrappers give every plaintext back, and report success exactly for those that are not empty.
  method ObfuscationRoundTrip(plaintext: seq<byte>) returns (ok: bool, r: seq<byte>)
    ensures r == plaintext && (ok <==> plaintext != [])
  {
    var encoded := ObfuscateToBase64(plaintext);
    RoundTrip(plaintext);
    ok, r := DeobfuscateFromBase64(Some(encoded));
  }

  // ----- known answers -----

  // The vectors of section 10 of RFC 4648 for f, fo, foo and foob, and the last two letters of the alphabet.
  lemma KnownAnswers()
    ensures Encoded([0x66]) == [0x5A, 0x67, 0x3D, 0x3D]
    ensures Encoded([0x66, 0x6F]) == [0x5A, 0x6D, 0x38, 0x3D]
    ensures Encoded([0x66, 0x6F, 0x6F]) == [0x5A, 0x6D, 0x39, 0x76]
    ensures Encoded([0x66, 0x6F, 0x6F, 0x62]) == [0x5A, 0x6D, 0x39, 0x76, 0x59, 0x67, 0x3D, 0x3D]
    ensures Encoded([0xFB, 0xFF]) == [0x2B, 0x2F, 0x38, 0x3D]
  {
    hide Encoded, Letter, Split;
    KnownLetters();
    EncodedPrefix([0x66], 0);
    EncodedPrefix([0x66, 0x6F], 0);
    EncodedPrefix([0x66, 0x6F, 0x6F], 0);
    EncodedPrefix([0x66, 0x6F, 0x6F, 0x62], 0);
    EncodedPrefix([0x66, 0x6F, 0x6F, 0x62], 1);
    EncodedPrefix([0xFB, 0xFF], 0);
  }

  lemma KnownLetters()
    ensures Letter(Split(0x66, 0, 0, 0)) == Letter(Split(0x66, 0x6F, 0, 0)) == Letter(Split(0x66, 0x6F, 0x6F, 0)) == 0x5A
    ensures Letter(Split(0x66, 0, 0, 1)) == 0x67 && Letter(Split(0x66, 0x6F, 0, 1)) == Letter(Split(0x66, 0x6F, 0x6F, 1)) == 0x6D
    ensures Letter(Split(0x66, 0x6F, 0, 2)) == 0x38 && Letter(Split(0x66, 0x6F, 0x6F, 2)) == 0x39
    ensures Letter(Split(0x66, 0x6F, 0x6F, 3)) == 0x76
    ensures Letter(Split(0x62, 0, 0, 0)) == 0x59 && Letter(Split(0x62, 0, 0, 1)) == 0x67
    ensures Letter(Split(0xFB, 0xFF, 0, 0)) == 0x2B && Letter(Split(0xFB, 0xFF, 0, 1)) == 0x2F && Letter(Split(0xFB, 0xFF, 0, 2)) == 0x38
  {
  }
}
