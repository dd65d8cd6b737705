// Compiling the printed literals gives what the strings mean, exactly unless a line without spaces is cut
// inside an escape (scripts/gen_i18n.py).
module CppRoundTrip {
  import opened Wrappers
  import opened Utf8
  import opened CppLiteral
  import opened StringTable

  // ----- the tokens of a literal -----

  // How much of a literal the compiler reads at once: a character or an escape.
  function TokenLength(t: string): (n: nat)
    requires t != ""
    ensures 0 < n <= |t|
    ensures t[0] != '\\' ==> n == 1
    ensures t[0] == '\\' && |t| > 1 ==> n >= 2
  {
    if t[0] != '\\' || |t| == 1 then 1
    else if t[1] == 'x' then 2 + HexRun(t[2..])
    else if IsOctalDigit(t[1]) then 1 + OctalRun(t[1..])
    else 2
  }

  // Position p of a literal lies between two tokens.
  predicate Boundary(t: string, p: nat)
    requires p <= |t|
    decreases |t|
  {
    p == 0 || (TokenLength(t) <= p && Boundary(t[TokenLength(t)..], p - TokenLength(t)))
  }

  predicate StartsHex(t: string) {
    |t| > 1 && t[0] == '\\' && t[1] == 'x'
  }

  // A segment as the printer makes them: octal escapes have one digit, and a hex escape starts four
  // characters before the end.
  predicate SegmentOk(t: string)
    decreases |t|
  {
    t == "" || ((if StartsHex(t) then |t| <= 4 else TokenLength(t) <= 2) && SegmentOk(t[TokenLength(t)..]))
  }

  lemma {:induction false} RunOfPrefix(t: string, p: nat)
    requires p <= |t|
    ensures HexRun(t[..p]) == if HexRun(t) <= p then HexRun(t) else p
  {
    if p > 0 && IsHexDigit(t[0]) {
      RunOfPrefix(t[1..], p - 1);
      assert t[..p][1..] == t[1..][..p - 1];
    }
  }

  // Reading one token does not depend on what follows it.
  lemma TokenOfPrefix(t: string, p: nat)
    requires t != "" && TokenLength(t) <= p <= |t|
    ensures TokenLength(t[..p]) == TokenLength(t)
  {
    if t[0] == '\\' && |t| > 1 {
      assert t[..p][1] == t[1];
      if t[1] == 'x' {
        RunOfPrefix(t[2..], p - 2);
        assert t[..p][2..] == t[2..][..p - 2];
      } else if IsOctalDigit(t[1]) {
        assert t[..p][1..] == t[1..][..p - 1];
      }
    }
  }

  lemma NothingJoined(a: seq<byte>)
    ensures Join(Some(a), Some([])) == Some(a)
  {
    assert a + [] == a;
  }

  lemma FirstOctal(t: string)
    requires |t| > 1 && t[0] == '\\' && IsOctalDigit(t[1])
    ensures Decode(t) == Join(Decode(t[..TokenLength(t)]), Decode(t[TokenLength(t)..]))
  {
    var n := TokenLength(t);
    var digits := t[1..][..n - 1];
    var token := t[..n];
    assert token[1..] == digits && digits[..n - 1] == digits && token[n..] == "" && OctalRun(digits) == n - 1;
    var b := OctalNumber(digits);
    assert Decode("") == Some([]);
    assert Decode(token) == if b >= 256 then None else Cons(b, Some([]));
    assert Decode(t) == if b >= 256 then None else Cons(b, Decode(t[n..]));
    assert [b] + [] == [b];
  }

  lemma FirstHex(t: string)
    requires |t| > 1 && t[0] == '\\' && t[1] == 'x'
    ensures Decode(t) == Join(Decode(t[..TokenLength(t)]), Decode(t[TokenLength(t)..]))
  {
    var n := TokenLength(t);
    RunOfRun(t[2..]);
    var digits := t[2..][..n - 2];
    var token := t[..n];
    assert token[2..] == digits && digits[..n - 2] == digits && token[n..] == "" && HexRun(digits) == n - 2;
    var ok := n > 2 && HexNumber(digits) < 256;
    assert Decode("") == Some([]);
    assert Decode(token) == if ok then Cons(HexNumber(digits), Some([])) else None;
    assert Decode(t) == if ok then Cons(HexNumber(digits), Decode(t[n..])) else None;
    assert ok ==> [HexNumber(digits) as byte] + [] == [HexNumber(digits) as byte];
  }

  lemma FirstPlain(t: string)
    requires t != "" && (t[0] != '\\' || |t| == 1 || (t[1] != 'x' && !IsOctalDigit(t[1])))
    ensures Decode(t) == Join(Decode(t[..TokenLength(t)]), Decode(t[TokenLength(t)..]))
  {
    var n := TokenLength(t);
    var token := t[..n];
    assert token[n..] == "" && Decode("") == Some([]);
    if t[0] != '\\' {
      NothingJoined(CharBytes(t[0]));
    } else if |t| > 1 {
      assert token[1] == t[1];
      var b := LetterEscape(t[1]);
      assert Decode(token) == if b.None? then None else Cons(b.value, Some([]));
      assert b.Some? ==> [b.value] + [] == [b.value];
    }
  }

  // The compiler reads a literal token by token.
  lemma FirstToken(t: string)
    requires t != ""
    ensures Decode(t) == Join(Decode(t[..TokenLength(t)]), Decode(t[TokenLength(t)..]))
  {
    hide Decode;
    if t[0] == '\\' && |t| > 1 && t[1] == 'x' {
      FirstHex(t);
    } else if t[0] == '\\' && |t| > 1 && IsOctalDigit(t[1]) {
      FirstOctal(t);
    } else {
      FirstPlain(t);
    }
  }

  lemma JoinAssociates(a: Option<seq<byte>>, b: Option<seq<byte>>, c: Option<seq<byte>>)
    ensures Join(a, Join(b, c)) == Join(Join(a, b), c)
  {
    if a.Some? && b.Some? && c.Some? {
      assert a.value + (b.value + c.value) == a.value + b.value + c.value;
    }
  }

  // A cut between tokens changes nothing.
  lemma {:induction false} CleanCut(t: string, p: nat)
    requires p <= |t| && Boundary(t, p)
    ensures Decode(t) == Join(Decode(t[..p]), Decode(t[p..]))
    decreases |t|
  {
    if p == 0 {
      assert t[..p] == "" && t[p..] == t;
      assert Decode(t).Some? ==> [] + Decode(t).value == Decode(t).value;
    } else {
      hide Decode;
      var n := TokenLength(t);
      CutAfterToken(t, p);
      CleanCut(t[n..], p - n);
      JoinAssociates(Decode(t[..n]), Decode(t[n..p]), Decode(t[p..]));
    }
  }

  lemma CutAfterToken(t: string, p: nat)
    requires t != "" && TokenLength(t) <= p <= |t|
    ensures var n := TokenLength(t);
            && t[n..][..p - n] == t[n..p] && t[n..][p - n..] == t[p..]
            && Decode(t) == Join(Decode(t[..n]), Decode(t[n..]))
            && Decode(t[..p]) == Join(Decode(t[..n]), Decode(t[n..p]))
  {
    hide Decode;
    var n := TokenLength(t);
    FirstToken(t);
    TokenOfPrefix(t, p);
    FirstToken(t[..p]);
    assert t[..p][..n] == t[..n] && t[..p][n..] == t[n..p];
  }

  // ----- cutting inside an escape -----

  // Compared with what was to be read: nothing at all, or visibly more.
  predicate Spoiled(r: Option<seq<byte>>, u: Option<seq<byte>>) {
    r.None? || (u.Some? && |r.value| > |u.value|)
  }

  lemma JoinSpoils(a: Option<seq<byte>>, u: Option<seq<byte>>, b: Option<seq<byte>>, v: Option<seq<byte>>)
    requires (a == u || Spoiled(a, u)) && (b == v || Spoiled(b, v))
    ensures Spoiled(a, u) || Spoiled(b, v) ==> Spoiled(Join(a, b), Join(u, v))
  {
  }

  // A cut inside an escape leaves a line that does not compile, or digits that become characters.
  lemma {:induction false} BadCut(t: string, p: nat)
    requires p <= |t| && SegmentOk(t) && !Boundary(t, p)
    ensures Spoiled(Join(Decode(t[..p]), Decode(t[p..])), Decode(t))
    ensures Decode(t[..p]).Some? ==> SegmentOk(t[p..])
    decreases |t|
  {
    hide Decode;
    var n := TokenLength(t);
    if n <= p {
      CutAfterToken(t, p);
      BadCut(t[n..], p - n);
      JoinAssociates(Decode(t[..n]), Decode(t[n..p]), Decode(t[p..]));
      JoinSpoils(Decode(t[..n]), Decode(t[..n]), Join(Decode(t[n..p]), Decode(t[p..])), Decode(t[n..]));
    } else if p == 1 {
      CutOpensEscape(t);
    } else if p == 2 {
      CutBeforeDigits(t);
    } else {
      CutBetweenDigits(t);
    }
  }

  lemma CutOpensEscape(t: string)
    requires t != "" && t[0] == '\\'
    ensures Decode(t[..1]) == None
  {
  }

  lemma CutBeforeDigits(t: string)
    requires |t| > 1 && t[0] == '\\' && t[1] == 'x'
    ensures Decode(t[..2]) == None
  {
    assert t[..2][2..] == "";
  }

  lemma CutBetweenDigits(t: string)
    requires t != "" && TokenLength(t) == 4 && t[0] == '\\' && t[1] == 'x' && SegmentOk(t[4..])
    ensures Spoiled(Join(Decode(t[..3]), Decode(t[3..])), Decode(t)) && SegmentOk(t[3..])
  {
    hide Decode;
    var digit := t[3..];
    assert t[2..][1..] == t[3..] && HexRun(t[2..]) == 2 && HexRun(t[3..]) == 1;
    assert digit[0] == t[3] && digit[1..] == t[4..] && digit[..1] == [t[3]];
    FirstToken(digit);
    FirstToken(t);
    DigitByte(t[3]);
    OneDigit(t[2]);
    assert t[..3] == "\\x" + [t[2]];
    TwoDigits(t[2], t[3]);
    assert t[..4] == "\\x" + [t[2], t[3]];
  }

  lemma DigitByte(c: char)
    requires IsHexDigit(c)
    ensures Decode([c]) == Some([c as int])
  {
    assert [c][1..] == "" && Decode("") == Some([]);
    NothingJoined(CharBytes(c));
  }

  lemma OneDigit(high: char)
    requires IsHexDigit(high)
    ensures Decode("\\x" + [high]) == Some([HexDigitValue(high)])
  {
    var t := "\\x" + [high];
    assert t[2..] == [high] && [high][1..] == "" && HexRun([high]) == 1 && [high][..1] == [high] && t[3..] == "";
    assert [high][..0] == "" && HexNumber([high]) == HexDigitValue(high);
    assert Decode("") == Some([]);
    assert [HexDigitValue(high)] + [] == [HexDigitValue(high)];
  }

  lemma TwoDigits(high: char, low: char)
    requires IsHexDigit(high) && IsHexDigit(low)
    ensures Decode("\\x" + [high, low]) == Some([16 * HexDigitValue(high) + HexDigitValue(low)])
  {
    var t := "\\x" + [high, low];
    var digits := [high, low];
    assert t[2..] == digits && digits[1..] == [low] && [low][1..] == "" && HexRun([low]) == 1 && HexRun(digits) == 2;
    assert digits[..2] == digits && t[4..] == "" && digits[..1] == [high] && [high][..0] == "";
    assert HexRun([high]) == 1 by { assert [high][1..] == ""; }
    assert HexNumber([high]) == HexDigitValue(high);
    var b := 16 * HexDigitValue(high) + HexDigitValue(low);
    assert HexNumber(digits) == b;
    assert Decode("") == Some([]);
    assert [b] + [] == [b];
  }

  lemma {:induction false} SegmentAfter(t: string, p: nat)
    requires p <= |t| && SegmentOk(t) && Boundary(t, p)
    ensures SegmentOk(t[p..])
    decreases |t|
  {
    hide HexRun, OctalRun, TokenLength;
    if p == 0 {
      assert t[p..] == t;
    } else {
      var n := TokenLength(t);
      SegmentAfter(t[n..], p - n);
      assert t[n..][p - n..] == t[p..];
    }
  }

  // ----- wrapping -----

  // Somewhere along the wrapping of a segment a line is cut inside an escape.
  predicate Breaks(current: string)
    decreases |current|
  {
    |current| > MAX_CONTENT_LEN && (!Boundary(current, Cut(current)) || Breaks(current[Cut(current)..]))
  }

  lemma SingleLine(current: string)
    ensures DecodeLines([Line(current)]) == Decode(current)
  {
    hide Decode;
    var line := Line(current);
    assert line[..5] == INDENT + "\"" && line[5..|line| - 1] == current;
    var none: seq<string> := [];
    assert [line][1..] == none && DecodeLines(none) == Some([]);
    if Decode(current).Some? { NothingJoined(Decode(current).value); }
  }

  lemma FirstLine(current: string, lines: seq<string>)
    ensures DecodeLines([Line(current)] + lines) == Join(Decode(current), DecodeLines(lines))
  {
    hide Decode;
    var line := Line(current);
    assert line[..5] == INDENT + "\"" && line[5..|line| - 1] == current;
    assert ([line] + lines)[1..] == lines;
  }

  // The lines a segment is wrapped into are read as the segment would be, unless one is cut inside an escape.
  lemma {:induction false} WrappedDecodes(t: string)
    requires SegmentOk(t)
    ensures var r := DecodeLines(Wrapped(t));
            if Breaks(t) then Spoiled(r, Decode(t)) else r == Decode(t)
    decreases |t|
  {
    hide Decode, Line, Boundary, SegmentOk, DecodeLines;
    if |t| <= MAX_CONTENT_LEN {
      SingleLine(t);
      if t == "" { NothingDecodes(); }
    } else {
      var p := Cut(t);
      var first, rest := Decode(t[..p]), t[p..];
      FirstLine(t[..p], Wrapped(rest));
      if Boundary(t, p) {
        CleanCut(t, p);
        SegmentAfter(t, p);
        WrappedDecodes(rest);
        JoinSpoils(first, first, DecodeLines(Wrapped(rest)), Decode(rest));
      } else {
        BadCut(t, p);
        if first.Some? {
          WrappedDecodes(rest);
          StillSpoiled(first, DecodeLines(Wrapped(rest)), Decode(rest), Decode(t));
        }
      }
    }
  }

  lemma NothingDecodes()
    ensures DecodeLines([]) == Some([]) && Decode("") == Some([])
  {
  }

  lemma StillSpoiled(a: Option<seq<byte>>, b: Option<seq<byte>>, v: Option<seq<byte>>, u: Option<seq<byte>>)
    requires Spoiled(Join(a, v), u) && (b == v || Spoiled(b, v))
    ensures Spoiled(Join(a, b), u)
  {
  }

  // ----- all segments of a text -----

  // The segments of a text read one after the other, as if each were one literal however long.
  function Unwrapped(segments: seq<string>): Option<seq<byte>> {
    if segments == [] then Some([]) else Join(Decode(segments[0]), Unwrapped(segments[1..]))
  }

  predicate SegmentsOk(segments: seq<string>) {
    forall k :: 0 <= k < |segments| ==> SegmentOk(segments[k])
  }

  // No line of the segments is cut inside an escape.
  predicate NoBreaks(segments: seq<string>) {
    forall k :: 0 <= k < |segments| ==> !Breaks(segments[k])
  }

  function Segmented(seg: string): seq<string> {
    if |seg| <= MAX_CONTENT_LEN then [Line(seg)] else Wrapped(seg)
  }

  lemma {:induction false} FormattedFirst(segments: seq<string>)
    requires segments != []
    ensures Formatted(segments) == Segmented(segments[0]) + Formatted(segments[1..])
  {
    hide Line, Wrapped;
    var front, last := segments[..|segments| - 1], segments[|segments| - 1];
    if front == [] {
      assert segments[1..] == [] && Formatted(front) == [];
    } else {
      FormattedFirst(front);
      assert segments[1..][..|segments| - 2] == front[1..];
    }
  }

  lemma {:induction false} DecodeConcat(a: seq<string>, b: seq<string>)
    ensures DecodeLines(a + b) == Join(DecodeLines(a), DecodeLines(b))
  {
    hide DecodeLine;
    if a == [] {
      assert a + b == b;
      assert DecodeLines(b).Some? ==> [] + DecodeLines(b).value == DecodeLines(b).value;
    } else {
      assert (a + b)[1..] == a[1..] + b && (a + b)[0] == a[0];
      DecodeConcat(a[1..], b);
      JoinAssociates(DecodeLine(a[0]), DecodeLines(a[1..]), DecodeLines(b));
    }
  }

  lemma SegmentDecodes(seg: string)
    requires SegmentOk(seg)
    ensures var r := DecodeLines(Segmented(seg));
            if Breaks(seg) then Spoiled(r, Decode(seg)) else r == Decode(seg)
  {
    hide Decode, Line, DecodeLines, SegmentOk, Boundary;
    if |seg| <= MAX_CONTENT_LEN {
      SingleLine(seg);
    } else {
      WrappedDecodes(seg);
    }
  }

  lemma {:induction false} FormattedDecodes(segments: seq<string>)
    requires SegmentsOk(segments)
    ensures var r := DecodeLines(Formatted(segments));
            if NoBreaks(segments) then r == Unwrapped(segments) else Spoiled(r, Unwrapped(segments))
  {
    hide Breaks, Segmented, SegmentOk, Decode;
    if segments != [] {
      hide Formatted, DecodeLines;
      var rest := segments[1..];
      FormattedDecodes(rest);
      FormattedFirst(segments);
      DecodeConcat(Segmented(segments[0]), Formatted(rest));
      SegmentDecodes(segments[0]);
      JoinSpoils(DecodeLines(Segmented(segments[0])), Decode(segments[0]), DecodeLines(Formatted(rest)), Unwrapped(rest));
      NoBreaksFirst(segments);
    }
  }

  lemma NoBreaksFirst(segments: seq<string>)
    requires segments != []
    ensures NoBreaks(segments) <==> !Breaks(segments[0]) && NoBreaks(segments[1..])
  {
    hide Breaks;
    if NoBreaks(segments[1..]) && !Breaks(segments[0]) {
      forall k | 0 <= k < |segments| ensures !Breaks(segments[k]) {
        if k > 0 { assert segments[1..][k - 1] == segments[k]; }
      }
    }
  }

  // ----- what a text means -----

  // Two characters after a backslash and an x that the text itself contains, as one escape.
  function HexMeaning(high: char, low: char): Option<seq<byte>> {
    if !IsHexDigit(high) then None
    else if IsHexDigit(low) then Some([16 * HexDigitValue(high) + HexDigitValue(low)])
    else if low in ['"', '\\', '\n'] then None
    else Some([HexDigitValue(high)] + CharBytes(low))
  }

  // The bytes of the entry of a text whose newlines have been replaced. Escapes in the text itself stand
  // for their byte; any other backslash, and any other character, stands for itself. A backslash at the
  // very end swallows the backslash of the separator.
  function Meaning(s: string): Option<seq<byte>>
    decreases |s|
  {
    if s == "" then Some([0])
    else if s[0] != '\\' then Join(Some(CharBytes(s[0])), Meaning(s[1..]))
    else if |s| == 1 then Some([92, 48])
    else if LetterEscape(s[1]).Some? then Join(Some([LetterEscape(s[1]).value]), Meaning(s[2..]))
    else if s[1] == 'x' && |s| > 3 then Join(HexMeaning(s[2], s[3]), Meaning(s[4..]))
    else Join(Some([92]), Meaning(s[1..]))
  }

  function EntryMeaning(s: string): Option<seq<byte>> {
    Meaning(Newlines(s))
  }

  // The last segment carries the separator.
  function WithSeparator(segments: seq<string>): (r: seq<string>)
    requires segments != []
    ensures r != []
  {
    segments[..|segments| - 1] + [segments[|segments| - 1] + "\\0"]
  }

  lemma SeparatorAfter(first: string, segments: seq<string>)
    requires segments != []
    ensures WithSeparator([first] + segments) == [first] + WithSeparator(segments)
  {
    var all := [first] + segments;
    assert all[..|all| - 1] == [first] + segments[..|segments| - 1];
  }

  lemma SeparatorPrepended(token: string, segments: seq<string>)
    requires segments != []
    ensures WithSeparator(Prepend(token, segments)) == Prepend(token, WithSeparator(segments))
  {
    if |segments| == 1 {
      assert token + segments[0] + "\\0" == token + (segments[0] + "\\0");
    }
  }

  // The segments are read as r.
  predicate Reads(segments: seq<string>, r: Option<seq<byte>>) {
    SegmentsOk(segments) && Unwrapped(segments) == r
  }

  // A character, or an escape that is not of the kind that goes on as long as there are digits.
  predicate IsToken(token: string) {
    || (|token| == 1 && token[0] != '\\')
    || (|token| == 2 && token[0] == '\\' && token[1] != 'x' && !IsOctalDigit(token[1]))
  }

  lemma TokenRead(token: string, segments: seq<string>, r: Option<seq<byte>>)
    requires IsToken(token) && segments != [] && Reads(segments, r)
    ensures Reads(Prepend(token, segments), Join(Decode(token), r))
  {
    hide Decode;
    var t := token + segments[0];
    assert t[|token|..] == segments[0] && t[..|token|] == token && t[0] == token[0];
    assert |token| > 1 ==> t[1] == token[1];
    assert TokenLength(t) == |token|;
    FirstToken(t);
    var p := Prepend(token, segments);
    assert p[0] == t && p[1..] == segments[1..];
    JoinAssociates(Decode(token), Decode(segments[0]), Unwrapped(segments[1..]));
    assert SegmentOk(segments[0]);
    forall k | 0 <= k < |p| ensures SegmentOk(p[k]) {
      if k > 0 { assert p[k] == segments[k]; }
    }
  }

  lemma SegmentRead(first: string, segments: seq<string>, r: Option<seq<byte>>)
    requires SegmentOk(first) && Reads(segments, r)
    ensures Reads([first] + segments, Join(Decode(first), r))
  {
    hide Decode, SegmentOk;
    assert ([first] + segments)[1..] == segments;
  }

  lemma HexDigits(n: nat)
    requires n < 16
    ensures IsHexDigit(HEX_DIGITS[n]) && HexDigitValue(HEX_DIGITS[n]) == n
  {
  }

  lemma HexEscapeReads(b: byte)
    ensures SegmentOk(HexEscape(b)) && Decode(HexEscape(b)) == Some([b])
  {
    hide Decode, IsHexDigit, HexDigitValue;
    var high, low := HEX_DIGITS[b / 16], HEX_DIGITS[b % 16];
    HexDigits(b / 16);
    HexDigits(b % 16);
    TwoDigits(high, low);
    WholeChunkIsShort(high, low);
    assert HexEscape(b) == "\\x" + [high, low];
  }

  lemma {:induction false} BytesRead(bytes: seq<byte>, segments: seq<string>, r: Option<seq<byte>>)
    requires segments != [] && Reads(segments, r)
    ensures Reads(BreakAfterEach(bytes, segments), Join(Some(bytes), r))
  {
    hide Reads, HexEscape;
    if bytes == [] {
      assert r.Some? ==> [] + r.value == r.value;
    } else {
      BytesRead(bytes[1..], segments, r);
      HexEscapeReads(bytes[0]);
      SegmentRead(HexEscape(bytes[0]), BreakAfterEach(bytes[1..], segments), Join(Some(bytes[1..]), r));
      JoinAssociates(Some([bytes[0]]), Some(bytes[1..]), r);
      assert [bytes[0]] + bytes[1..] == bytes;
    }
  }

  lemma {:induction false} SeparatorAfterBytes(bytes: seq<byte>, segments: seq<string>)
    requires segments != []
    ensures WithSeparator(BreakAfterEach(bytes, segments)) == BreakAfterEach(bytes, WithSeparator(segments))
  {
    hide HexEscape, WithSeparator;
    if bytes != [] {
      SeparatorAfterBytes(bytes[1..], segments);
      SeparatorAfter(HexEscape(bytes[0]), BreakAfterEach(bytes[1..], segments));
    }
  }

  lemma ChunkStarts(high: char, low: char)
    ensures var t := "\\x" + [high, low];
            && t[2..] == [high, low] && [high, low][1..] == [low] && [low][1..] == ""
            && HexRun(t[2..]) == if !IsHexDigit(high) then 0 else if !IsHexDigit(low) then 1 else 2
  {
    var t := "\\x" + [high, low];
    assert t[2..] == [high, low] && [high, low][1..] == [low] && [low][1..] == "";
    assert HexRun([low]) == if IsHexDigit(low) then 1 else 0;
  }

  // The four characters of such an escape, whatever the last two are, contain short escapes only.
  lemma WholeChunkIsShort(high: char, low: char)
    ensures SegmentOk("\\x" + [high, low])
  {
    hide IsHexDigit;
    var t := "\\x" + [high, low];
    ChunkStarts(high, low);
    assert t[3..] == [low] && t[4..] == "" && SegmentOk("");
    ShortChar(low);
    ShortPair(high, low);
  }

  lemma ShortChar(c: char)
    ensures SegmentOk([c])
  {
    assert [c][1..] == "" && SegmentOk("");
  }

  lemma ShortPair(a: char, b: char)
    ensures SegmentOk([a, b])
  {
    var t := [a, b];
    assert t[1..] == [b] && t[2..] == "" && SegmentOk("");
    ShortChar(b);
    assert OctalRun([b]) <= 1;
  }

  lemma ChunkReads(high: char, low: char)
    ensures Decode("\\x" + [high, low]) == HexMeaning(high, low)
  {
    hide Decode, IsHexDigit;
    var t := "\\x" + [high, low];
    ChunkStarts(high, low);
    if !IsHexDigit(high) {
      NoDigits(t);
    } else if IsHexDigit(low) {
      TwoDigits(high, low);
    } else {
      assert t[..3] == "\\x" + [high] && t[3..] == [low];
      FirstToken(t);
      OneDigit(high);
      CharReads(low);
    }
  }

  lemma NoDigits(t: string)
    requires |t| > 1 && t[0] == '\\' && t[1] == 'x' && HexRun(t[2..]) == 0
    ensures Decode(t) == None
  {
  }

  lemma CharReads(c: char)
    ensures Decode([c]) == if c in ['"', '\\', '\n'] then None else Some(CharBytes(c))
  {
    assert [c][1..] == "" && Decode("") == Some([]);
    NothingJoined(CharBytes(c));
  }

  lemma PairReads(c: char)
    requires LetterEscape(c).Some?
    ensures IsToken(['\\', c]) && Decode(['\\', c]) == Some([LetterEscape(c).value])
  {
    var t := ['\\', c];
    assert t[2..] == "" && Decode("") == Some([]);
    assert [LetterEscape(c).value] + [] == [LetterEscape(c).value];
  }

  lemma LettersOfEscapes(c: char)
    ensures LetterEscape(c).Some? <==> c in ['n', 't', 'r', '"', '\\']
  {
  }

  // Escaping keeps the meaning: the segments of any text are read as what the text means.
  lemma {:induction false} EscapedReads(s: string)
    requires '\n' !in s
    ensures Reads(WithSeparator(Escaped(s)), Meaning(s))
    decreases |s|
  {
    hide Reads, WithSeparator, Decode, LetterEscape, HexMeaning, BreakAfterEach, Prepend, CharBytes, IsToken;
    EscapedUnfolds(s);
    if s == "" {
      SeparatorReads();
    } else if s == "\\" {
      SwallowedReads();
    } else if s[0] == '\\' {
      LettersOfEscapes(s[1]);
      if LetterEscape(s[1]).Some? {
        EscapedReads(s[2..]);
        PairReads(s[1]);
        assert s[..2] == ['\\', s[1]];
        SeparatorPrepended(s[..2], Escaped(s[2..]));
        TokenRead(s[..2], WithSeparator(Escaped(s[2..])), Meaning(s[2..]));
      } else if s[1] == 'x' && |s| > 3 {
        EscapedReads(s[4..]);
        assert s[..4] == "\\x" + [s[2], s[3]];
        SeparatorAfter(s[..4], Escaped(s[4..]));
        WholeChunkIsShort(s[2], s[3]);
        ChunkReads(s[2], s[3]);
        SegmentRead(s[..4], WithSeparator(Escaped(s[4..])), Meaning(s[4..]));
      } else {
        LoneBackslashReads(s);
      }
    } else {
      OrdinaryReads(s);
    }
  }

  lemma OneSegment(t: string)
    ensures Unwrapped([t]) == Decode(t)
    ensures SegmentOk(t) ==> SegmentsOk([t])
  {
    hide Decode, SegmentOk;
    var none: seq<string> := [];
    assert [t][1..] == none && Unwrapped(none) == Some([]);
    if Decode(t).Some? { NothingJoined(Decode(t).value); }
  }

  lemma SeparatorReads()
    ensures Escaped("") == [""] && Reads(WithSeparator([""]), Some([0]))
  {
    var t := "\\0";
    assert "" + t == t && [""][..0] == [];
    assert t[1..] == "0" && t[2..] == "" && "0"[..0] == "" && "0"[..1] == "0" && OctalRun("0") == 1 && OctalNumber("0") == 0;
    assert Decode("") == Some([]) && [0 as byte] + [] == [0];
    assert Decode(t) == Some([0]);
    ShortPair('\\', '0');
    assert WithSeparator([""]) == [t];
    OneSegment(t);
  }

  lemma SwallowedReads()
    ensures Reads(WithSeparator(Escaped("\\")), Meaning("\\"))
  {
    var t := "\\\\0";
    SeparatorReads();
    assert "\\"[1..] == "" && "\\" + "" == "\\";
    assert Escaped("\\") == ["\\"] && "\\" + "\\0" == t && ["\\"][..0] == [];
    assert WithSeparator(["\\"]) == [t];
    assert t[..2] == ['\\', '\\'] && t[2..] == "0" && ['0'] == "0";
    FirstToken(t);
    PairReads('\\');
    CharReads('0');
    ShortChar('0');
    assert CharBytes('0') == [48] && [92] + [48] == [92, 48];
    OneSegment(t);
  }

  lemma LoneBackslashReads(s: string)
    requires |s| > 1 && s[0] == '\\' && LetterEscape(s[1]).None? && !(s[1] == 'x' && |s| > 3)
    requires '\n' !in s
    ensures Reads(WithSeparator(Escaped(s)), Meaning(s))
    decreases |s|, 0
  {
    hide Reads, WithSeparator, Decode, Prepend, IsToken;
    EscapedReads(s[1..]);
    LettersOfEscapes(s[1]);
    PairReads('\\');
    SeparatorPrepended("\\\\", Escaped(s[1..]));
    TokenRead("\\\\", WithSeparator(Escaped(s[1..])), Meaning(s[1..]));
  }

  lemma OrdinaryReads(s: string)
    requires s != "" && s[0] != '\\' && '\n' !in s
    ensures Reads(WithSeparator(Escaped(s)), Meaning(s))
    decreases |s|, 0
  {
    hide Reads, WithSeparator, Decode, Prepend, BreakAfterEach;
    var rest := Escaped(s[1..]);
    EscapedReads(s[1..]);
    if s[0] == '"' {
      PairReads('"');
      assert CharBytes('"') == [34];
      SeparatorPrepended("\\\"", rest);
      TokenRead("\\\"", WithSeparator(rest), Meaning(s[1..]));
    } else if s[0] as int < 128 {
      CharReads(s[0]);
      SeparatorPrepended([s[0]], rest);
      TokenRead([s[0]], WithSeparator(rest), Meaning(s[1..]));
    } else {
      SeparatorAfterBytes(CharBytes(s[0]), rest);
      BytesRead(CharBytes(s[0]), WithSeparator(rest), Meaning(s[1..]));
    }
  }

  lemma {:induction false} NoNewlines(s: string)
    ensures '\n' !in Newlines(s)
  {
    if s != "" {
      NoNewlines(s[1..]);
    }
  }

  // ----- the round trip -----

  lemma SegmentsMean(s: string)
    ensures Reads(EntrySegments(s), EntryMeaning(s))
  {
    hide Meaning, Escaped, Unwrapped, SegmentOk;
    NoNewlines(s);
    EscapedReads(Newlines(s));
    assert EntrySegments(s) == WithSeparator(Escaped(Newlines(s)));
  }

  // The printed entry of any text compiles to what the text means, if and only if no line is cut inside
  // an escape; when one is, to something longer or not at all. (A text that means nothing does not
  // compile either way.)
  lemma EntryRoundTrip(s: string)
    ensures var r, u := DecodeLines(Formatted(EntrySegments(s))), EntryMeaning(s);
            && (u.None? ==> r.None?)
            && (u.Some? ==> (r == u <==> NoBreaks(EntrySegments(s))))
            && (!NoBreaks(EntrySegments(s)) ==> Spoiled(r, u))
  {
    hide Formatted, DecodeLines, NoBreaks, EntryMeaning, EntrySegments, Unwrapped;
    SegmentsMean(s);
    FormattedDecodes(EntrySegments(s));
  }

  // Text without backslashes means its own UTF-8 bytes.
  lemma {:induction false} PlainTextMeansItself(s: string)
    requires '\\' !in s
    ensures EntryMeaning(s) == Some(Entry(s))
  {
    if s == "" {
      assert [] + [0] == [0 as byte];
    } else {
      hide CharBytes;
      assert s == [s[0]] + s[1..];
      PlainTextMeansItself(s[1..]);
      var rest := Newlines(s[1..]);
      assert CharBytes(s[0]) + (Utf8Of(s[1..]) + [0]) == Utf8Of(s) + [0];
      if s[0] == '\n' {
        NewlineMeans(rest);
      } else {
        assert Newlines(s) == [s[0]] + rest && Newlines(s)[1..] == rest;
      }
    }
  }

  lemma NewlineMeans(rest: string)
    ensures Meaning("\\n" + rest) == Join(Some(CharBytes('\n')), Meaning(rest))
  {
    hide Meaning;
    var s := "\\n" + rest;
    assert s[2..] == rest && s[1] == 'n' && |s| > 1;
    assert CharBytes('\n') == [10];
    MeaningUnfolds(s);
  }

  lemma MeaningUnfolds(s: string)
    requires |s| > 1 && s[0] == '\\' && LetterEscape(s[1]).Some?
    ensures Meaning(s) == Join(Some([LetterEscape(s[1]).value]), Meaning(s[2..]))
  {
  }

  lemma PlainEntryRoundTrip(s: string)
    requires '\\' !in s
    ensures DecodeLines(Formatted(EntrySegments(s))) == Some(Entry(s)) <==> NoBreaks(EntrySegments(s))
  {
    hide Formatted, DecodeLines, EntrySegments, NoBreaks, EntryMeaning;
    PlainTextMeansItself(s);
    EntryRoundTrip(s);
  }

  // ----- where lines are cut -----

  // Position p is inside the token that starts at b.
  predicate Splits(t: string, b: nat, p: nat)
    requires p <= |t|
  {
    b < p && Boundary(t, b) && p < b + TokenLength(t[b..])
  }

  lemma {:induction false} SplitToken(t: string, p: nat) returns (b: nat)
    requires p <= |t| && !Boundary(t, p)
    ensures Splits(t, b, p)
    decreases |t|
  {
    hide TokenLength;
    var n := TokenLength(t);
    if p < n {
      b := 0;
      assert t[0..] == t;
    } else {
      var c := SplitToken(t[n..], p - n);
      b := n + c;
      assert t[n..][c..] == t[b..];
    }
  }

  lemma {:induction false} NoSplitAtBoundary(t: string, b: nat, p: nat)
    requires p <= |t| && Splits(t, b, p)
    ensures !Boundary(t, p)
    decreases |t|
  {
    hide TokenLength;
    if b == 0 {
      assert t[0..] == t;
    } else {
      var n := TokenLength(t);
      assert t[n..][b - n..] == t[b..];
      NoSplitAtBoundary(t[n..], b - n, p - n);
    }
  }

  // A position is a boundary exactly when it is inside no escape.
  lemma BoundaryIsExact(t: string, p: nat)
    requires p <= |t|
    ensures Boundary(t, p) <==> forall b :: 0 <= b < p ==> !Splits(t, b, p)
    ensures forall b :: 0 <= b < p && Splits(t, b, p) ==> t[b] == '\\'
  {
    hide Boundary, TokenLength;
    if !Boundary(t, p) {
      var b := SplitToken(t, p);
    }
    forall b: nat | 0 <= b < p && Splits(t, b, p) ensures !Boundary(t, p) && t[b] == '\\' {
      NoSplitAtBoundary(t, b, p);
    }
  }

  lemma {:induction false} NextBoundary(t: string, b: nat)
    requires b < |t| && Boundary(t, b)
    ensures Boundary(t, b + TokenLength(t[b..]))
    decreases |t|
  {
    hide TokenLength;
    if b == 0 {
      assert t[0..] == t;
    } else {
      var n := TokenLength(t);
      assert t[n..][b - n..] == t[b..];
      NextBoundary(t[n..], b - n);
    }
  }

  predicate IsPlain(c: char) {
    c !in ['\\', '"', '\n']
  }

  // The digits of an escape are neither spaces nor anything special.
  lemma InsideDigits(t: string, i: nat)
    requires t != "" && t[0] == '\\' && 2 <= i < TokenLength(t)
    ensures t[i] != ' ' && IsPlain(t[i])
  {
    if t[1] == 'x' {
      RunDigit(t[2..], i - 2);
    } else {
      assert IsOctalDigit(t[1..][i - 1]);
    }
  }

  lemma {:induction false} RunDigit(t: string, k: nat)
    requires k < HexRun(t)
    ensures IsHexDigit(t[k])
  {
    if k > 0 { RunDigit(t[1..], k - 1); }
  }

  // The scan for a space is between two tokens, or among the digits of the escape that starts at b.
  lemma {:induction false} SpaceIsOutside(t: string, idx: nat, last: int, b: nat)
    requires b <= idx && b <= |t| && Boundary(t, b)
    requires idx == b || (b < |t| && t[b] == '\\' && b + 2 <= idx <= b + TokenLength(t[b..]))
    requires last == -1 || (0 <= last < |t| && Boundary(t, last + 1))
    ensures var r := LastSpace(t, idx, last); r == -1 || (0 <= r < |t| && Boundary(t, r + 1))
    decreases |t| - idx, idx - b
  {
    hide Boundary;
    if idx <= MAX_CONTENT_LEN && idx < |t| {
      assert t[b..][0] == t[b];
      if idx == b {
        NextBoundary(t, b);
        if t[b] == '\\' {
          if b + 1 < |t| { SpaceIsOutside(t, idx + 2, last, b); }
        } else {
          SpaceIsOutside(t, idx + 1, if t[idx] == ' ' then idx else last, idx + 1);
        }
      } else if idx == b + TokenLength(t[b..]) {
        NextBoundary(t, b);
        SpaceIsOutside(t, idx, last, idx);
      } else {
        InsideDigits(t[b..], idx - b);
        SpaceIsOutside(t, idx + 1, last, b);
      }
    }
  }

  // A cut after a space is never inside an escape, whatever the segment; only a forced cut can be.
  lemma SpaceCutIsClean(t: string)
    requires |t| > MAX_CONTENT_LEN && LastSpace(t, 0, -1) != -1
    ensures Boundary(t, Cut(t))
  {
    SpaceIsOutside(t, 0, -1, 0);
  }

  // A forced cut steps back from a backslash, so it is inside an escape only when that backslash is the
  // second of a pair, or when one or two characters of the hex escape that ends the segment are too many.
  lemma CutIsClean(t: string) returns (b: nat)
    requires |t| > MAX_CONTENT_LEN && SegmentOk(t) && !Boundary(t, Cut(t))
    ensures LastSpace(t, 0, -1) == -1 && Splits(t, b, Cut(t))
    ensures if t[b + 1] == 'x' then Cut(t) == MAX_CONTENT_LEN && b + 2 <= Cut(t) < |t| <= b + 4
            else Cut(t) == MAX_CONTENT_LEN - 1 == b + 1 && t[b] == '\\' && t[b + 1] == '\\'
  {
    hide Boundary, LastSpace, SegmentOk, TokenLength;
    if LastSpace(t, 0, -1) != -1 { SpaceCutIsClean(t); }
    b := SplitToken(t, Cut(t));
    SegmentAfter(t, b);
    EscapeIsShort(t[b..]);
    assert t[b..][0] == t[b] && t[b..][1] == t[b + 1];
    var at := MAX_CONTENT_LEN - 1;
    if b + 2 <= at && Cut(t) == at {
      DigitAt(t, b, at);
    }
  }

  lemma DigitAt(t: string, b: nat, i: nat)
    requires b < |t| && t[b] == '\\' && b + 2 <= i < b + TokenLength(t[b..])
    ensures t[i] != '\\'
  {
    hide TokenLength;
    InsideDigits(t[b..], i - b);
  }

  lemma EscapeIsShort(t: string)
    requires t != "" && SegmentOk(t) && TokenLength(t) > 1
    ensures t[0] == '\\' && |t| > 1 && if t[1] == 'x' then |t| <= 4 else TokenLength(t) == 2
  {
  }

  // ----- when no line is cut inside an escape -----

  // Every 114 characters in a row contain a space.
  ghost predicate Spaced(seg: string) {
    forall i :: 0 <= i && i + MAX_CONTENT_LEN + 1 <= |seg| ==> HasSpace(seg, i)
  }

  predicate HasSpace(seg: string, i: nat)
    requires i + MAX_CONTENT_LEN + 1 <= |seg|
  {
    exists k :: i <= k <= i + MAX_CONTENT_LEN && seg[k] == ' '
  }

  lemma {:induction false} ScanKeeps(current: string, idx: nat, last: int)
    requires last >= 0
    ensures LastSpace(current, idx, last) >= 0
    decreases |current| - idx
  {
    if idx <= MAX_CONTENT_LEN && idx < |current| {
      ScanKeeps(current, if current[idx] == '\\' then idx + 2 else idx + 1, if current[idx] == ' ' then idx else last);
    }
  }

  // In a literal that compiles, the scan steps over no space.
  lemma {:induction false} ScanSees(t: string, idx: nat, last: int, k: nat)
    requires idx <= k < |t| && Decode(t[idx..]).Some? && k <= MAX_CONTENT_LEN && t[k] == ' '
    ensures LastSpace(t, idx, last) >= 0
    decreases |t| - idx
  {
    hide Decode;
    if t[idx] == ' ' {
      ScanKeeps(t, idx + 1, idx);
    } else {
      StepCompiles(t[idx..]);
      assert t[idx..][0] == t[idx] && t[idx..][1..] == t[idx + 1..];
      if t[idx] == '\\' {
        assert t[idx..][1] == t[idx + 1] && t[idx..][2..] == t[idx + 2..];
        ScanSees(t, idx + 2, last, k);
      } else {
        ScanSees(t, idx + 1, last, k);
      }
    }
  }

  // Without its first character, or its first two if they start an escape, it still compiles.
  lemma StepCompiles(u: string)
    requires u != "" && Decode(u).Some?
    ensures u[0] != '\\' ==> Decode(u[1..]).Some?
    ensures u[0] == '\\' ==> |u| > 1 && u[1] != ' ' && Decode(u[2..]).Some?
  {
    hide Decode, TokenLength;
    var n := TokenLength(u);
    FirstToken(u);
    if u[0] == '\\' {
      EscapeCompiles(u);
      assert u[2..][n - 2..] == u[n..];
      forall k | 0 <= k < n - 2 ensures IsPlain(u[2..][k]) { InsideDigits(u, k + 2); }
      PlainCompiles(u[2..], n - 2);
    }
  }

  lemma EscapeCompiles(u: string)
    requires u != "" && u[0] == '\\' && Decode(u).Some?
    ensures |u| > 1 && u[1] != ' '
  {
    hide HexRun, HexNumber, OctalRun, OctalNumber;
  }

  lemma {:induction false} PlainCompiles(u: string, n: nat)
    requires n <= |u| && Decode(u[n..]).Some? && forall k :: 0 <= k < n ==> IsPlain(u[k])
    ensures Decode(u).Some?
  {
    if n == 0 {
      assert u[0..] == u;
    } else {
      assert u[1..][n - 1..] == u[n..];
      PlainCompiles(u[1..], n - 1);
    }
  }

  lemma {:induction false} SpacedNeverBreaks(t: string)
    requires Decode(t).Some? && Spaced(t)
    ensures !Breaks(t)
    decreases |t|
  {
    hide Decode, LastSpace, Boundary, HasSpace;
    if |t| > MAX_CONTENT_LEN {
      assert HasSpace(t, 0);
      SpaceIsFound(t);
      SpaceCutIsClean(t);
      var c := Cut(t);
      CleanCut(t, c);
      SpacedRest(t, c);
      SpacedNeverBreaks(t[c..]);
    }
  }

  lemma SpaceIsFound(t: string)
    requires |t| > MAX_CONTENT_LEN && Decode(t).Some? && HasSpace(t, 0)
    ensures LastSpace(t, 0, -1) >= 0
  {
    hide Decode, LastSpace;
    var k :| 0 <= k <= MAX_CONTENT_LEN && t[k] == ' ';
    assert t[0..] == t;
    ScanSees(t, 0, -1, k);
  }

  lemma SpacedRest(current: string, c: nat)
    requires Spaced(current) && c <= |current|
    ensures Spaced(current[c..])
  {
    var rest := current[c..];
    forall i | 0 <= i && i + MAX_CONTENT_LEN + 1 <= |rest| ensures HasSpace(rest, i) {
      assert HasSpace(current, c + i);
      var j :| c + i <= j <= c + i + MAX_CONTENT_LEN && current[j] == ' ';
      assert rest[j - c] == ' ';
    }
  }

  lemma {:induction false} SegmentCompiles(segments: seq<string>, k: nat)
    requires Unwrapped(segments).Some? && k < |segments|
    ensures Decode(segments[k]).Some?
  {
    hide Decode;
    if k > 0 { SegmentCompiles(segments[1..], k - 1); }
  }

  // So text whose segments never go 114 characters without a space comes back whole.
  lemma SpacedEntryRoundTrip(s: string)
    requires forall k :: 0 <= k < |EntrySegments(s)| ==> Spaced(EntrySegments(s)[k])
    ensures DecodeLines(Formatted(EntrySegments(s))) == EntryMeaning(s)
  {
    hide Formatted, DecodeLines, Spaced, EntryMeaning, Breaks, EntrySegments, Unwrapped, Decode;
    EntryRoundTrip(s);
    SegmentsMean(s);
    if EntryMeaning(s).Some? {
      forall k | 0 <= k < |EntrySegments(s)| ensures !Breaks(EntrySegments(s)[k]) {
        SegmentCompiles(EntrySegments(s), k);
        SpacedNeverBreaks(EntrySegments(s)[k]);
      }
    }
  }

  // ----- when one is -----

  // ASCII text that needs no escapes.
  predicate Letters(t: string) {
    forall k :: 0 <= k < |t| ==> t[k] as int < 128 && t[k] !in [' ', '\\', '"', '\n']
  }

  lemma {:induction false} LettersStay(t: string, u: string)
    requires Letters(t)
    ensures Newlines(t + u) == t + Newlines(u)
  {
    if t == "" {
      assert t + u == u && t + Newlines(u) == Newlines(u);
    } else {
      LettersStay(t[1..], u);
      assert (t + u)[1..] == t[1..] + u && (t + u)[0] == t[0];
      assert [t[0]] + (t[1..] + Newlines(u)) == t + Newlines(u);
    }
  }

  lemma {:induction false} LettersEscape(t: string, u: string)
    requires Letters(t)
    ensures Escaped(t + u) == Prepend(t, Escaped(u))
  {
    hide BreakAfterEach, CharBytes;
    if t == "" {
      assert t + u == u && "" + Escaped(u)[0] == Escaped(u)[0];
    } else {
      LettersEscape(t[1..], u);
      assert (t + u)[1..] == t[1..] + u && (t + u)[0] == t[0];
      assert [t[0]] + (t[1..] + Escaped(u)[0]) == t + Escaped(u)[0];
    }
  }

  lemma {:induction false} NoSpaceNoCut(current: string, idx: nat, last: int)
    requires idx <= |current| ==> ' ' !in current[idx..]
    ensures LastSpace(current, idx, last) == last
    decreases |current| - idx
  {
    if idx <= MAX_CONTENT_LEN && idx < |current| {
      assert current[idx..][0] == current[idx];
      NoSpaceNoCut(current, if current[idx] == '\\' then idx + 2 else idx + 1, last);
    }
  }

  // Letters are tokens by themselves.
  lemma {:induction false} AfterLetters(t: string, u: string, p: nat)
    requires Letters(t) && p <= |u|
    ensures Boundary(t + u, |t| + p) <==> Boundary(u, p)
  {
    hide TokenLength;
    if t == "" {
      assert t + u == u;
    } else {
      AfterLetters(t[1..], u, p);
      assert (t + u)[1..] == t[1..] + u && (t + u)[0] == t[0];
      LetterToken(t + u);
      if |t| + p > 0 { assert Boundary(t + u, |t| + p) <==> Boundary((t + u)[1..], |t| + p - 1); }
    }
  }

  lemma LetterToken(t: string)
    requires t != "" && t[0] != '\\'
    ensures TokenLength(t) == 1
  {
  }

  // No space before the cut, which falls p characters into what follows the letters.
  lemma ForcedCut(t: string, u: string, p: nat)
    requires Letters(t) && ' ' !in u && p <= |u| && |t + u| > MAX_CONTENT_LEN && !Boundary(u, p)
    requires |t| + p == if (t + u)[MAX_CONTENT_LEN - 1] == '\\' then MAX_CONTENT_LEN - 1 else MAX_CONTENT_LEN
    ensures Breaks(t + u)
  {
    hide LastSpace, Boundary;
    assert ' ' !in (t + u)[0..];
    NoSpaceNoCut(t + u, 0, -1);
    AfterLetters(t, u, p);
  }

  lemma EscapeIsOneToken(b: byte)
    ensures var u := HexEscape(b);
            u[0] == '\\' && TokenLength(u) == 4 && ' ' !in u && forall k :: 0 < k < 4 ==> u[k] != '\\'
  {
    hide IsHexDigit;
    var high, low := HEX_DIGITS[b / 16], HEX_DIGITS[b % 16];
    HexDigits(b / 16);
    HexDigits(b % 16);
    ChunkStarts(high, low);
    HexDigitIsPlain(high);
    HexDigitIsPlain(low);
    assert HexEscape(b) == "\\x" + [high, low];
  }

  lemma HexDigitIsPlain(c: char)
    requires IsHexDigit(c)
    ensures c != ' ' && c != '\\'
  {
  }

  lemma OneCharEscapes(c: char)
    requires c as int >= 128
    ensures Newlines([c]) == [c]
    ensures |Escaped([c])| > 1 && Escaped([c])[0] == HexEscape(CharBytes(c)[0])
  {
    assert [c][1..] == "" && Newlines("") == "" && Escaped("") == [""];
    assert |BreakAfterEach(CharBytes(c)[1..], [""])| > 0;
  }

  // 110 or 111 letters without a space and then a character beyond ASCII: the line is cut inside the
  // character's first hex escape, and the literals compile to something longer, or not at all.
  lemma ForcedCutSpoils(t: string, c: char)
    requires Letters(t) && |t| in [MAX_CONTENT_LEN - 3, MAX_CONTENT_LEN - 2] && c as int >= 128
    ensures !NoBreaks(EntrySegments(t + [c]))
    ensures Spoiled(DecodeLines(Formatted(EntrySegments(t + [c]))), Some(Entry(t + [c])))
  {
    hide Formatted, DecodeLines, Escaped, Newlines, Breaks, EntryMeaning, Boundary, HexEscape, TokenLength;
    var s := t + [c];
    LettersStay(t, [c]);
    LettersEscape(t, [c]);
    OneCharEscapes(c);
    assert Newlines(s) == s;
    var u, p := HexEscape(CharBytes(c)[0]), MAX_CONTENT_LEN - |t|;
    EscapeIsOneToken(CharBytes(c)[0]);
    InsideToken(u, p);
    assert EntrySegments(s)[0] == t + u;
    assert (t + u)[MAX_CONTENT_LEN - 1] == u[p - 1];
    ForcedCut(t, u, p);
    assert '\\' !in s;
    PlainTextMeansItself(s);
    EntryRoundTrip(s);
  }

  lemma InsideToken(u: string, p: nat)
    requires u != "" && 0 < p < TokenLength(u)
    ensures p <= |u| && !Boundary(u, p)
  {
  }

  // 111 letters without a space, then a backslash and another letter: the cut steps back from the second
  // of the two backslashes that are printed, and leaves the first one to end its line.
  lemma PairCutSpoils(t: string, c: char)
    requires Letters(t) && |t| == MAX_CONTENT_LEN - 2 && Letters([c]) && LetterEscape(c).None?
    ensures !NoBreaks(EntrySegments(t + ['\\', c]))
    ensures Spoiled(DecodeLines(Formatted(EntrySegments(t + ['\\', c]))), EntryMeaning(t + ['\\', c]))
  {
    hide Formatted, DecodeLines, Escaped, Newlines, Breaks, EntryMeaning, Boundary, TokenLength, LetterEscape;
    var s, u := t + ['\\', c], "\\\\" + [c] + "\\0";
    LettersStay(t, ['\\', c]);
    PairEscapes(c);
    LettersEscape(t, ['\\', c]);
    assert Newlines(s) == s;
    assert t + ("\\\\" + [c]) + "\\0" == t + u;
    assert EntrySegments(s)[0] == t + u;
    PairIsOneToken(u);
    InsideToken(u, 1);
    assert (t + u)[MAX_CONTENT_LEN - 1] == u[1];
    ForcedCut(t, u, 1);
    EntryRoundTrip(s);
  }

  lemma PairIsOneToken(u: string)
    requires |u| > 1 && u[0] == '\\' && u[1] == '\\'
    ensures TokenLength(u) == 2
  {
  }

  lemma PairEscapes(c: char)
    requires Letters([c]) && LetterEscape(c).None?
    ensures Newlines(['\\', c]) == ['\\', c] && Escaped(['\\', c]) == ["\\\\" + [c]]
  {
    var s := ['\\', c];
    assert c == [c][0] && s[1..] == [c] && [c][1..] == "" && Newlines("") == "" && Newlines([c]) == [c];
    LettersOfEscapes(c);
    assert Escaped("") == [""] && Escaped([c]) == Prepend([c], [""]) && [c] + "" == [c];
    assert Escaped([c]) == [[c]];
    assert Escaped(s) == Prepend("\\\\", [[c]]);
  }
}
