// The UTF-8 encoding of text (section 3 of RFC 3629), for the string tables of scripts/gen_i18n.py.
module Utf8 {
  import opened Wrappers

  function CharBytes(c: char): (r: seq<byte>)
    ensures 1 <= |r| <= 4
    ensures r[0] == 0 <==> c == '\0'
    ensures forall k :: 0 < k < |r| ==> r[k] != 0
  {
    var v := c as int;
    var high := v / 0x40;
    var higher := high / 0x40;
    if v < 0x80 then [v]
    else if v < 0x800 then [0xC0 + high, 0x80 + v % 0x40]
    else if v < 0x10000 then [0xE0 + higher, 0x80 + high % 0x40, 0x80 + v % 0x40]
    else [0xF0 + higher / 0x40, 0x80 + higher % 0x40, 0x80 + high % 0x40, 0x80 + v % 0x40]
  }

  function Utf8Of(s: string): seq<byte> {
    if s == "" then [] else CharBytes(s[0]) + Utf8Of(s[1..])
  }

  // What the first byte says about the length of its sequence.
  function SequenceLength(first: byte): nat {
    if first < 0x80 then 1 else if first < 0xE0 then 2 else if first < 0xF0 then 3 else 4
  }

  lemma LengthFromFirst(c: char)
    ensures |CharBytes(c)| == SequenceLength(CharBytes(c)[0])
  {
  }

  // The scalar value a sequence encodes.
  function Scalar(b: seq<int>): int
    requires 1 <= |b| <= 4
  {
    if |b| == 1 then b[0]
    else if |b| == 2 then (b[0] - 0xC0) * 0x40 + b[1] - 0x80
    else if |b| == 3 then ((b[0] - 0xE0) * 0x40 + b[1] - 0x80) * 0x40 + b[2] - 0x80
    else (((b[0] - 0xF0) * 0x40 + b[1] - 0x80) * 0x40 + b[2] - 0x80) * 0x40 + b[3] - 0x80
  }

  lemma CharRoundTrip(c: char)
    ensures Scalar(CharBytes(c)) == c as int
  {
  }

  // Bytes determine the text.
  lemma {:induction false} Utf8Injective(s: string, t: string)
    requires Utf8Of(s) == Utf8Of(t)
    ensures s == t
  {
    hide CharBytes;
    if s != "" && t != "" {
      var a, b := CharBytes(s[0]), CharBytes(t[0]);
      LengthFromFirst(s[0]);
      LengthFromFirst(t[0]);
      assert Utf8Of(s)[0] == a[0] && Utf8Of(t)[0] == b[0];
      assert a == Utf8Of(s)[..|a|] && b == Utf8Of(t)[..|b|];
      CharRoundTrip(s[0]);
      CharRoundTrip(t[0]);
      assert Utf8Of(s)[|a|..] == Utf8Of(s[1..]) && Utf8Of(t)[|b|..] == Utf8Of(t[1..]);
      Utf8Injective(s[1..], t[1..]);
    }
  }

  // No character but NUL contributes a zero byte.
  lemma {:induction false} ZeroBytes(s: string)
    ensures 0 in Utf8Of(s) <==> '\0' in s
  {
    hide CharBytes;
    if s != "" {
      ZeroBytes(s[1..]);
      assert s == [s[0]] + s[1..];
      assert 0 in Utf8Of(s) <==> 0 in CharBytes(s[0]) || 0 in Utf8Of(s[1..]);
      assert CharBytes(s[0])[0] in CharBytes(s[0]);
    }
  }
}
