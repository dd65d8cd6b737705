// Printing a string table as C++ literals (scripts/gen_i18n.py), and reading the literals back as a
// compiler does: escapes are decoded in each literal by itself, then adjacent literals are joined.
module CppLiteral {
  import opened Wrappers
  import opened Utf8

  const MAX_CONTENT_LEN := 113
  const INDENT := "    "

  // ----- reading literals -----

  predicate IsHexDigit(c: char) {
    '0' <= c <= '9' || 'A' <= c <= 'F' || 'a' <= c <= 'f'
  }

  function HexDigitValue(c: char): (r: nat)
    requires IsHexDigit(c)
    ensures r < 16
  {
    if c <= '9' then c as int - '0' as int else if c <= 'F' then c as int - 'A' as int + 10 else c as int - 'a' as int + 10
  }

  // A hex escape takes all hex digits that follow, however many.
  function HexRun(t: string): (n: nat)
    ensures n <= |t|
  {
    if t == "" || !IsHexDigit(t[0]) then 0 else 1 + HexRun(t[1..])
  }

  function HexNumber(t: string): nat
    requires HexRun(t) == |t|
  {
    if t == "" then 0
    else
      (RunPrefix(t); 16 * HexNumber(t[..|t| - 1]) + HexDigitValue(t[|t| - 1]))
  }

  lemma {:induction false} RunPrefix(t: string)
    requires HexRun(t) == |t| > 0
    ensures HexRun(t[..|t| - 1]) == |t| - 1 && IsHexDigit(t[|t| - 1])
  {
    if |t| > 1 {
      RunPrefix(t[1..]);
      assert t[..|t| - 1][1..] == t[1..][..|t| - 2];
    }
  }

  lemma {:induction false} RunOfRun(t: string)
    ensures HexRun(t[..HexRun(t)]) == HexRun(t)
  {
    if t != "" && IsHexDigit(t[0]) {
      RunOfRun(t[1..]);
      assert t[..HexRun(t)][1..] == t[1..][..HexRun(t[1..])];
    }
  }

  predicate IsOctalDigit(c: char) {
    '0' <= c <= '7'
  }

  // An octal escape takes up to three digits.
  function OctalRun(t: string): (n: nat)
    ensures n <= |t| && n <= 3
    ensures t != "" && IsOctalDigit(t[0]) ==> n > 0
    ensures forall k :: 0 <= k < n ==> IsOctalDigit(t[k])
  {
    if t == "" || !IsOctalDigit(t[0]) then 0
    else if |t| == 1 || !IsOctalDigit(t[1]) then 1
    else if |t| == 2 || !IsOctalDigit(t[2]) then 2
    else 3
  }

  function OctalNumber(t: string): nat
    requires forall k :: 0 <= k < |t| ==> IsOctalDigit(t[k])
  {
    if t == "" then 0
    else
      (assert IsOctalDigit(t[|t| - 1]); 8 * OctalNumber(t[..|t| - 1]) + (t[|t| - 1] as int - '0' as int))
  }

  // The byte of a one-letter escape.
  function LetterEscape(c: char): Option<byte> {
    match c
    case 'n' => Some(10)
    case 't' => Some(9)
    case 'r' => Some(13)
    case '"' => Some(34)
    case '\\' => Some(92)
    case _ => None
  }

  function Cons(b: byte, rest: Option<seq<byte>>): Option<seq<byte>> {
    if rest.None? then None else Some([b] + rest.value)
  }

  function Join(a: Option<seq<byte>>, b: Option<seq<byte>>): Option<seq<byte>> {
    if a.None? || b.None? then None else Some(a.value + b.value)
  }

  // The bytes of a literal's content, which is UTF-8 like the rest of the file; None if it is ill-formed.
  function Decode(t: string): Option<seq<byte>>
    decreases |t|
  {
    if t == "" then Some([])
    else if t[0] != '\\' then
      if t[0] == '"' || t[0] == '\n' then None else Join(Some(CharBytes(t[0])), Decode(t[1..]))
    else if |t| == 1 then None
    else if t[1] == 'x' then
      var n := HexRun(t[2..]);
      RunOfRun(t[2..]);
      if n == 0 || HexNumber(t[2..][..n]) >= 256 then None else Cons(HexNumber(t[2..][..n]), Decode(t[2 + n..]))
    else if IsOctalDigit(t[1]) then
      var n := OctalRun(t[1..]);
      if OctalNumber(t[1..][..n]) >= 256 then None else Cons(OctalNumber(t[1..][..n]), Decode(t[1 + n..]))
    else if LetterEscape(t[1]).Some? then Cons(LetterEscape(t[1]).value, Decode(t[2..]))
    else None
  }

  lemma DigitsExact(c: char)
    ensures IsHexDigit(c) <==> c in "0123456789ABCDEFabcdef"
    ensures IsOctalDigit(c) <==> c in "01234567"
  {
  }

  lemma DigitValues(v: nat)
    requires v < 16
    ensures HexDigitValue("0123456789ABCDEF"[v]) == v == HexDigitValue("0123456789abcdef"[v])
    ensures OctalNumber("101") == 65 && OctalNumber("037") == 31
  {
    assert "101"[..2] == "10" && "10"[..1] == "1" && "037"[..2] == "03" && "03"[..1] == "0";
  }

  // What single escapes stand for in the execution character set, ASCII.
  lemma KnownEscapes()
    ensures Decode("\\n") == Some([10]) && Decode("\\t") == Some([9]) && Decode("\\r") == Some([13])
    ensures Decode("\\\"") == Some([34]) && Decode("\\\\") == Some([92])
    ensures Decode("A") == Some([65]) && Decode("\\") == None && Decode("\\x") == None && Decode("\"") == None
  {
    OneLetter("\\n");
    OneLetter("\\t");
    OneLetter("\\r");
    OneLetter("\\\"");
    OneLetter("\\\\");
    var rest: seq<byte> := [];
    assert Decode("A"[1..]) == Some(rest) && CharBytes('A') + rest == [65];
  }

  lemma OneLetter(t: string)
    requires |t| == 2 && t[0] == '\\' && t[1] != 'x' && LetterEscape(t[1]).Some?
    ensures Decode(t) == Some([LetterEscape(t[1]).value])
  {
    var rest: seq<byte> := [];
    assert Decode(t[2..]) == Some(rest) && [LetterEscape(t[1]).value] + rest == [LetterEscape(t[1]).value];
  }

  // A printed line holds one literal.
  function Line(content: string): string {
    INDENT + "\"" + content + "\""
  }

  function DecodeLine(line: string): Option<seq<byte>> {
    if |line| >= 6 && line[..5] == INDENT + "\"" && line[|line| - 1] == '"' then Decode(line[5..|line| - 1]) else None
  }

  // Adjacent literals, each decoded by itself.
  function DecodeLines(lines: seq<string>): Option<seq<byte>> {
    if lines == [] then Some([]) else Join(DecodeLine(lines[0]), DecodeLines(lines[1..]))
  }

  // ----- escaping -----

  // s.replace("\n", "\\n").
  function Newlines(s: string): string {
    if s == "" then "" else (if s[0] == '\n' then "\\n" else [s[0]]) + Newlines(s[1..])
  }

  const HEX_DIGITS := "0123456789ABCDEF"

  function HexEscape(b: byte): (r: string)
    ensures |r| == 4
  {
    "\\x" + [HEX_DIGITS[b / 16], HEX_DIGITS[b % 16]]
  }

  // The token goes before the first segment.
  function Prepend(token: string, segments: seq<string>): (r: seq<string>)
    requires segments != []
    ensures |r| == |segments|
  {
    [token + segments[0]] + segments[1..]
  }

  // Each byte ends its segment.
  function BreakAfterEach(bytes: seq<byte>, segments: seq<string>): (r: seq<string>)
    requires segments != []
    ensures r != []
  {
    if bytes == [] then segments else [HexEscape(bytes[0])] + BreakAfterEach(bytes[1..], segments)
  }

  // The segments of escape_cpp_string, newlines already replaced.
  function Escaped(s: string): (r: seq<string>)
    ensures r != []
    decreases |s|
  {
    if s == "" then [""]
    else if s[0] == '\\' && |s| > 1 then
      if s[1] in ['n', 't', 'r', '"', '\\'] then Prepend(s[..2], Escaped(s[2..]))
      else if s[1] == 'x' && |s| > 3 then [s[..4]] + Escaped(s[4..])
      else Prepend("\\\\", Escaped(s[1..]))
    else if s[0] == '"' then Prepend("\\\"", Escaped(s[1..]))
    else if s[0] as int < 128 then Prepend([s[0]], Escaped(s[1..]))
    else BreakAfterEach(CharBytes(s[0]), Escaped(s[1..]))
  }

  // Segments already flushed, the one being collected, and what the rest of the text yields.
  function Assembled(segments: seq<string>, current: string, rest: seq<string>): (r: seq<string>)
    requires rest != []
    ensures r != []
  {
    segments + Prepend(current, rest)
  }

  method ReplaceNewlines(s: string) returns (r: string)
    ensures r == Newlines(s)
  {
    r := "";
    var i := 0;
    while i < |s|
      invariant 0 <= i <= |s| && r + Newlines(s[i..]) == Newlines(s)
    {
      assert s[i..][1..] == s[i + 1..];
      r := r + if s[i] == '\n' then "\\n" else [s[i]];
      i := i + 1;
    }
    assert s[i..] == "";
  }

  method EscapeCppString(text: string) returns (segments: seq<string>)
    ensures segments == Escaped(Newlines(text))
  {
    hide Escaped, BreakAfterEach, CharBytes, HexEscape;
    if text == "" {
      NothingEscaped();
      return [""];
    }
    var s := ReplaceNewlines(text);
    segments := [];
    var current, i := "", 0;
    assert s[0..] == s;
    AssembledStart(Escaped(s));
    while i < |s|
      invariant 0 <= i <= |s| && Assembled(segments, current, Escaped(s[i..])) == Escaped(s)
      decreases |s| - i
    {
      var ch := s[i];
      assert s[i..][0] == ch;
      EscapedUnfolds(s[i..]);
      if ch == '\\' && i + 1 < |s| {
        var nxt := s[i + 1];
        if nxt in ['n', 't', 'r', '"', '\\'] {
          assert s[i..][..2] == [ch, nxt] && s[i..][2..] == s[i + 2..];
          Collected(segments, current, [ch, nxt], Escaped(s[i + 2..]));
          current := current + [ch, nxt];
          i := i + 2;
        } else if nxt == 'x' && i + 3 < |s| {
          assert s[i..][..4] == s[i..i + 4] && s[i..][4..] == s[i + 4..];
          Flushed(segments, current, s[i..i + 4], Escaped(s[i + 4..]));
          segments, current := segments + [current + s[i..i + 4]], "";
          i := i + 4;
        } else {
          assert s[i..][1..] == s[i + 1..];
          Collected(segments, current, "\\\\", Escaped(s[i + 1..]));
          current := current + "\\\\";
          i := i + 1;
        }
      } else if ch == '"' {
        assert s[i..][1..] == s[i + 1..];
        Collected(segments, current, "\\\"", Escaped(s[i + 1..]));
        current := current + "\\\"";
        i := i + 1;
      } else if ch as int < 128 {
        assert s[i..][1..] == s[i + 1..];
        Collected(segments, current, [ch], Escaped(s[i + 1..]));
        current := current + [ch];
        i := i + 1;
      } else {
        assert s[i..][1..] == s[i + 1..];
        segments, current := AppendBytes(segments, current, CharBytes(ch), Escaped(s[i + 1..]));
        i := i + 1;
      }
    }
    assert s[i..] == "";
    EscapedUnfolds("");
    AssembledEnd(segments, current);
    segments := segments + [current];
  }

  // The bytes of one character beyond ASCII.
  method AppendBytes(segments0: seq<string>, current0: string, bytes: seq<byte>, ghost rest: seq<string>)
    returns (segments: seq<string>, current: string)
    requires rest != []
    ensures Assembled(segments, current, rest) == Assembled(segments0, current0, BreakAfterEach(bytes, rest))
  {
    hide HexEscape;
    segments, current := segments0, current0;
    var k := 0;
    assert bytes[0..] == bytes;
    while k < |bytes|
      invariant 0 <= k <= |bytes|
      invariant Assembled(segments, current, BreakAfterEach(bytes[k..], rest))
             == Assembled(segments0, current0, BreakAfterEach(bytes, rest))
    {
      assert bytes[k..][0] == bytes[k] && bytes[k..][1..] == bytes[k + 1..];
      Flushed(segments, current, HexEscape(bytes[k]), BreakAfterEach(bytes[k + 1..], rest));
      segments, current := segments + [current + HexEscape(bytes[k])], "";
      k := k + 1;
    }
  }

  lemma NothingEscaped()
    ensures Escaped(Newlines("")) == [""]
  {
  }

  lemma EscapedUnfolds(s: string)
    ensures Escaped(s)
         == if s == "" then [""]
            else if s[0] == '\\' && |s| > 1 then
              if s[1] in ['n', 't', 'r', '"', '\\'] then Prepend(s[..2], Escaped(s[2..]))
              else if s[1] == 'x' && |s| > 3 then [s[..4]] + Escaped(s[4..])
              else Prepend("\\\\", Escaped(s[1..]))
            else if s[0] == '"' then Prepend("\\\"", Escaped(s[1..]))
            else if s[0] as int < 128 then Prepend([s[0]], Escaped(s[1..]))
            else BreakAfterEach(CharBytes(s[0]), Escaped(s[1..]))
  {
  }

  lemma AssembledStart(all: seq<string>)
    requires all != []
    ensures Assembled([], "", all) == all
  {
    assert "" + all[0] == all[0];
  }

  lemma AssembledEnd(segments: seq<string>, current: string)
    ensures Assembled(segments, current, [""]) == segments + [current]
  {
    assert current + "" == current;
  }

  lemma Collected(segments: seq<string>, current: string, token: string, rest: seq<string>)
    requires rest != []
    ensures Assembled(segments, current + token, rest) == Assembled(segments, current, Prepend(token, rest))
  {
    assert current + token + rest[0] == current + (token + rest[0]);
  }

  lemma Flushed(segments: seq<string>, current: string, token: string, rest: seq<string>)
    requires rest != []
    ensures Assembled(segments + [current + token], "", rest) == Assembled(segments, current, [token] + rest)
  {
    assert "" + rest[0] == rest[0];
  }

  // ----- formatting -----

  // The scan for the last space, stepping over escapes.
  function LastSpace(current: string, idx: nat, last: int): int
    decreases |current| - idx
  {
    if idx > MAX_CONTENT_LEN || idx >= |current| then last
    else LastSpace(current, if current[idx] == '\\' then idx + 2 else idx + 1, if current[idx] == ' ' then idx else last)
  }

  lemma {:induction false} LastSpaceInRange(current: string, idx: nat, last: int)
    requires -1 <= last < |current| && last <= MAX_CONTENT_LEN && (last >= 0 ==> current[last] == ' ')
    ensures var r := LastSpace(current, idx, last); -1 <= r < |current| && r <= MAX_CONTENT_LEN && (r >= 0 ==> current[r] == ' ')
    decreases |current| - idx
  {
    if idx <= MAX_CONTENT_LEN && idx < |current| {
      LastSpaceInRange(current, if current[idx] == '\\' then idx + 2 else idx + 1, if current[idx] == ' ' then idx else last);
    }
  }

  // Where a line that is too long is cut: after its last space, else by force.
  function Cut(current: string): (p: nat)
    requires |current| > MAX_CONTENT_LEN
    ensures 0 < p <= |current|
  {
    LastSpaceInRange(current, 0, -1);
    var lastSpace := LastSpace(current, 0, -1);
    if lastSpace != -1 then lastSpace + 1
    else if current[MAX_CONTENT_LEN - 1] == '\\' then MAX_CONTENT_LEN - 1
    else MAX_CONTENT_LEN
  }

  function Wrapped(current: string): seq<string>
    decreases |current|
  {
    if |current| <= MAX_CONTENT_LEN then if current != "" then [Line(current)] else []
    else [Line(current[..Cut(current)])] + Wrapped(current[Cut(current)..])
  }

  function Formatted(segments: seq<string>): seq<string> {
    if segments == [] then []
    else
      var last := segments[|segments| - 1];
      Formatted(segments[..|segments| - 1]) + if |last| <= MAX_CONTENT_LEN then [Line(last)] else Wrapped(last)
  }

  // The lines of a segment: one if it is short, and none wider than 120 columns, indented and quoted.
  lemma ShortSegmentIsOneLine(segments: seq<string>, seg: string)
    requires |seg| <= 113
    ensures Formatted(segments + [seg]) == Formatted(segments) + ["    \"" + seg + "\""]
  {
    assert (segments + [seg])[..|segments|] == segments;
    assert Line(seg) == "    \"" + seg + "\"";
  }

  lemma {:induction false} WrappedFits(current: string, k: nat)
    requires k < |Wrapped(current)|
    ensures |Wrapped(current)[k]| <= 120
    decreases |current|
  {
    if |current| > MAX_CONTENT_LEN {
      LastSpaceInRange(current, 0, -1);
      if k > 0 { WrappedFits(current[Cut(current)..], k - 1); }
    }
  }

  lemma {:induction false} LinesFit(segments: seq<string>, k: nat)
    requires k < |Formatted(segments)|
    ensures |Formatted(segments)[k]| <= 120
  {
    var front, last := segments[..|segments| - 1], segments[|segments| - 1];
    if k < |Formatted(front)| {
      LinesFit(front, k);
    } else if |last| > MAX_CONTENT_LEN {
      WrappedFits(last, k - |Formatted(front)|);
    }
  }

  method FindLastSpace(current: string) returns (lastSpace: int)
    ensures lastSpace == LastSpace(current, 0, -1)
  {
    lastSpace := -1;
    var idx := 0;
    while idx <= MAX_CONTENT_LEN && idx < |current|
      invariant 0 <= idx && LastSpace(current, idx, lastSpace) == LastSpace(current, 0, -1)
      decreases |current| - idx
    {
      if current[idx] == ' ' { lastSpace := idx; }
      if current[idx] == '\\' { idx := idx + 2; } else { idx := idx + 1; }
    }
  }

  lemma WrapStep(lines: seq<string>, current: string)
    requires |current| > MAX_CONTENT_LEN
    ensures var lastSpace := LastSpace(current, 0, -1);
            -1 <= lastSpace < |current|
            && Cut(current) == if lastSpace != -1 then lastSpace + 1
                               else if current[MAX_CONTENT_LEN - 1] == '\\' then MAX_CONTENT_LEN - 1
                               else MAX_CONTENT_LEN
    ensures lines + Wrapped(current)
         == lines + [Line(current[..Cut(current)])] + Wrapped(current[Cut(current)..])
  {
    hide LastSpace, Line;
    LastSpaceInRange(current, 0, -1);
  }

  method WrapSegment(seg: string) returns (lines: seq<string>)
    ensures lines == Wrapped(seg)
  {
    hide LastSpace, Line, Cut, Wrapped;
    lines := [];
    var current := seg;
    while |current| > MAX_CONTENT_LEN
      invariant lines + Wrapped(current) == Wrapped(seg)
      decreases |current|
    {
      var lastSpace := FindLastSpace(current);
      WrapStep(lines, current);
      if lastSpace != -1 {
        var splitPoint := lastSpace + 1;
        lines := lines + [Line(current[..splitPoint])];
        current := current[splitPoint..];
      } else {
        var cutAt := MAX_CONTENT_LEN;
        if current[cutAt - 1] == '\\' { cutAt := cutAt - 1; }
        lines := lines + [Line(current[..cutAt])];
        current := current[cutAt..];
      }
    }
    ShortIsOneLine(current);
    if current != "" { lines := lines + [Line(current)]; }
  }

  lemma ShortIsOneLine(current: string)
    requires |current| <= MAX_CONTENT_LEN
    ensures Wrapped(current) == if current != "" then [Line(current)] else []
  {
  }

  method FormatCppStringLiteral(segments: seq<string>) returns (lines: seq<string>)
    ensures lines == Formatted(segments)
  {
    lines := [];
    for i := 0 to |segments|
      invariant lines == Formatted(segments[..i])
    {
      assert segments[..i + 1][..i] == segments[..i];
      var seg := segments[i];
      if |seg| <= MAX_CONTENT_LEN {
        lines := lines + [Line(seg)];
      } else {
        var more := WrapSegment(seg);
        lines := lines + more;
      }
    }
    assert segments[..|segments|] == segments;
  }

  // The segments of an entry: the last one carries the separator.
  function EntrySegments(text: string): (r: seq<string>)
    ensures r != []
  {
    var segments := Escaped(Newlines(text));
    segments[..|segments| - 1] + [segments[|segments| - 1] + "\\0"]
  }

  // _append_string_data_entry.
  method AppendStringDataEntry(lines0: seq<string>, text: string) returns (lines: seq<string>)
    ensures lines == lines0 + Formatted(EntrySegments(text))
  {
    hide Formatted, Escaped;
    var segments := EscapeCppString(text);
    var last := |segments| - 1;
    if segments[last] != "" {
      segments := segments[last := segments[last] + "\\0"];
    } else {
      assert segments[last] + "\\0" == "\\0";
      segments := segments[last := "\\0"];
    }
    assert segments == EntrySegments(text);
    var more := FormatCppStringLiteral(segments);
    lines := lines0 + more;
  }
}
