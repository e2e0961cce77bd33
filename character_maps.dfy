/**
 * The two byte classification tables (src/header.rs:7-34) and the alphabets they encode.
 * A table maps every accepted byte to itself and every rejected byte to the null byte.
 */
module CharacterMaps {
  import opened Bytes

  /**
   * The entries of `HEADER_FIELD_NAME_CHARACTER_MAP`, one sequence per line of the
   * original literal; the table is these lines laid end to end.
   */
  const NameCharacterMapLines: seq<seq<byte>> := [
    [0, 0, 0, 0, 0, 0, 0, 0, 0, 0, 0, 0, 0, 0, 0, 0, 0, 0, 0, 0, 0, 0, 0, 0, 0, 0, 0, 0, 0, 0, 0, 0],
    [0, 0, 0, 0, 0, 0, 0, 0, 0, 0, 0, 0, 0, '-' as byte, 0, 0, '0' as byte, '1' as byte, '2' as byte, '3' as byte, '4' as byte, '5' as byte, '6' as byte],
    ['7' as byte, '8' as byte, '9' as byte, 0, 0, 0, 0, 0, 0, 0, 'A' as byte, 'B' as byte, 'C' as byte, 'D' as byte, 'E' as byte, 'F' as byte, 'G' as byte, 'H' as byte, 'I' as byte],
    ['J' as byte, 'K' as byte, 'L' as byte, 'M' as byte, 'N' as byte, 'O' as byte, 'P' as byte, 'Q' as byte, 'R' as byte, 'S' as byte, 'T' as byte, 'U' as byte, 'V' as byte, 'W' as byte, 'X' as byte, 'Y' as byte],
    ['Z' as byte, 0, 0, 0, 0, '_' as byte, 0, 'a' as byte, 'b' as byte, 'c' as byte, 'd' as byte, 'e' as byte, 'f' as byte, 'g' as byte, 'h' as byte, 'i' as byte, 'j' as byte, 'k' as byte],
    ['l' as byte, 'm' as byte, 'n' as byte, 'o' as byte, 'p' as byte, 'q' as byte, 'r' as byte, 's' as byte, 't' as byte, 'u' as byte, 'v' as byte, 'w' as byte, 'x' as byte, 'y' as byte, 'z' as byte, 0, 0],
    [0, 0, 0, 0, 0, 0, 0, 0, 0, 0, 0, 0, 0, 0, 0, 0, 0, 0, 0, 0, 0, 0, 0, 0, 0, 0, 0, 0, 0, 0, 0, 0],
    [0, 0, 0, 0, 0, 0, 0, 0, 0, 0, 0, 0, 0, 0, 0, 0, 0, 0, 0, 0, 0, 0, 0, 0, 0, 0, 0, 0, 0, 0, 0, 0],
    [0, 0, 0, 0, 0, 0, 0, 0, 0, 0, 0, 0, 0, 0, 0, 0, 0, 0, 0, 0, 0, 0, 0, 0, 0, 0, 0, 0, 0, 0, 0, 0],
    [0, 0, 0, 0, 0, 0, 0, 0, 0, 0, 0, 0, 0, 0, 0, 0, 0, 0, 0, 0, 0, 0, 0, 0, 0, 0, 0, 0, 0, 0, 0, 0],
    [0, 0, 0]
  ]

  /** The entries of `HEADER_FIELD_VALUE_CHARACTER_MAP`, laid out in the same way. */
  const ValueCharacterMapLines: seq<seq<byte>> := [
    [0, 0, 0, 0, 0, 0, 0, 0, 0, '\t' as byte, 0, 0, 0, 0, 0, 0, 0, 0, 0, 0, 0, 0, 0, 0, 0, 0, 0, 0, 0, 0],
    [0, 0, ' ' as byte, '!' as byte, '"' as byte, '#' as byte, '$' as byte, '%' as byte, '&' as byte, '\'' as byte, '(' as byte, ')' as byte, '*' as byte, '+' as byte, ',' as byte, '-' as byte],
    ['.' as byte, '/' as byte, '0' as byte, '1' as byte, '2' as byte, '3' as byte, '4' as byte, '5' as byte, '6' as byte, '7' as byte, '8' as byte, '9' as byte, ':' as byte, ';' as byte, '<' as byte, '=' as byte],
    ['>' as byte, '?' as byte, '@' as byte, 'A' as byte, 'B' as byte, 'C' as byte, 'D' as byte, 'E' as byte, 'F' as byte, 'G' as byte, 'H' as byte, 'I' as byte, 'J' as byte, 'K' as byte, 'L' as byte, 'M' as byte],
    ['N' as byte, 'O' as byte, 'P' as byte, 'Q' as byte, 'R' as byte, 'S' as byte, 'T' as byte, 'U' as byte, 'V' as byte, 'W' as byte, 'X' as byte, 'Y' as byte, 'Z' as byte, '[' as byte, '\\' as byte],
    [']' as byte, '^' as byte, '_' as byte, '`' as byte, 'a' as byte, 'b' as byte, 'c' as byte, 'd' as byte, 'e' as byte, 'f' as byte, 'g' as byte, 'h' as byte, 'i' as byte, 'j' as byte, 'k' as byte, 'l' as byte],
    ['m' as byte, 'n' as byte, 'o' as byte, 'p' as byte, 'q' as byte, 'r' as byte, 's' as byte, 't' as byte, 'u' as byte, 'v' as byte, 'w' as byte, 'x' as byte, 'y' as byte, 'z' as byte, '{' as byte, '|' as byte],
    ['}' as byte, '~' as byte, 0, 0, 0, 0, 0, 0, 0, 0, 0, 0, 0, 0, 0, 0, 0, 0, 0, 0, 0, 0, 0, 0, 0, 0, 0, 0, 0, 0],
    [0, 0, 0, 0, 0, 0, 0, 0, 0, 0, 0, 0, 0, 0, 0, 0, 0, 0, 0, 0, 0, 0, 0, 0, 0, 0, 0, 0, 0, 0, 0, 0],
    [0, 0, 0, 0, 0, 0, 0, 0, 0, 0, 0, 0, 0, 0, 0, 0, 0, 0, 0, 0, 0, 0, 0, 0, 0, 0, 0, 0, 0, 0, 0, 0],
    [0, 0, 0, 0, 0, 0, 0, 0, 0, 0, 0, 0, 0, 0, 0, 0, 0, 0, 0, 0, 0, 0, 0, 0, 0, 0, 0, 0, 0, 0, 0, 0],
    [0, 0, 0, 0, 0]
  ]

  const NameCharacterMap: seq<byte> := Flatten(NameCharacterMapLines)

  const ValueCharacterMap: seq<byte> := Flatten(ValueCharacterMapLines)

  /** The lines of a table laid end to end. */
  function Flatten(lines: seq<seq<byte>>): seq<byte> {
    if lines == [] then [] else lines[0] + Flatten(lines[1..])
  }

  predicate IsAlpha(b: byte) {
    'A' as byte <= b <= 'Z' as byte || 'a' as byte <= b <= 'z' as byte
  }

  predicate IsDigit(b: byte) {
    '0' as byte <= b <= '9' as byte
  }

  /** The name alphabet: ASCII letters, digits, hyphen and underscore. */
  predicate IsNameChar(b: byte) {
    IsAlpha(b) || IsDigit(b) || b == '-' as byte || b == '_' as byte
  }

  /** The value alphabet: HTAB, SP and VCHAR, as in section 5.5 of RFC 9110 but without obs-text. */
  predicate IsValueChar(b: byte) {
    b == 0x09 || 0x20 <= b <= 0x7E
  }

  /** `tchar`, the token alphabet of section 5.6.2 of RFC 9110. */
  predicate IsTchar(b: byte) {
    IsAlpha(b) || IsDigit(b) ||
    b in {'!' as byte, '#' as byte, '$' as byte, '%' as byte, '&' as byte, '\'' as byte, '*' as byte,
          '+' as byte, '-' as byte, '.' as byte, '^' as byte, '_' as byte, '`' as byte, '|' as byte, '~' as byte}
  }

  /** The two alphabets. */
  datatype Alphabet = Name | Value

  predicate Accepts(a: Alphabet, b: byte) {
    match a
    case Name => IsNameChar(b)
    case Value => IsValueChar(b)
  }

  /** What the table for alphabet `a` holds at byte `n`: the byte itself if accepted, else null. */
  function Expected(a: Alphabet, n: int): int {
    if 0 <= n < 0x100 && Accepts(a, n as byte) then n else 0
  }

  /** Entry `i` of `t` is what the table for alphabet `a` holds at byte `start + i`. */
  ghost predicate Encodes(t: seq<byte>, start: int, a: Alphabet) {
    forall i :: 0 <= i < |t| ==> t[i] as int == Expected(a, start + i)
  }

  /** Each of `lines`, laid end to end from byte `start` up to byte `end`, encodes `a`. */
  ghost predicate LinesEncode(lines: seq<seq<byte>>, start: int, end: int, a: Alphabet)
    decreases |lines|
  {
    if lines == [] then start == end
    else Encodes(lines[0], start, a) && LinesEncode(lines[1..], start + |lines[0]|, end, a)
  }

  /** Lines that encode `a` one by one make a table that encodes `a` as a whole. */
  lemma {:induction false} FlattenEncodes(lines: seq<seq<byte>>, start: int, end: int, a: Alphabet)
    requires LinesEncode(lines, start, end, a)
    ensures |Flatten(lines)| == end - start && Encodes(Flatten(lines), start, a)
    decreases |lines|
  {
    if lines != [] {
      var head, tail := lines[0], Flatten(lines[1..]);
      FlattenEncodes(lines[1..], start + |head|, end, a);
      forall i | 0 <= i < |head| + |tail|
        ensures (head + tail)[i] as int == Expected(a, start + i)
      {
        if i >= |head| {
          assert (head + tail)[i] == tail[i - |head|];
          assert start + |head| + (i - |head|) == start + i;
        }
      }
    }
  }

  /** A whole table that encodes `a` maps every byte as the alphabet says. */
  lemma EncodesEveryByte(t: seq<byte>, a: Alphabet)
    requires |t| == 0x100 && Encodes(t, 0, a)
    ensures forall b: byte :: t[b] == if Accepts(a, b) then b else 0
  {
    forall b: byte ensures t[b] == if Accepts(a, b) then b else 0 {
      assert t[b] as int == Expected(a, 0 + b as int);
    }
  }

  /** Prepending line `k` to the lines after it keeps the encoding. */
  lemma LinesEncodeFrom(lines: seq<seq<byte>>, k: int, start: int, end: int, a: Alphabet)
    requires 0 <= k < |lines|
    requires Encodes(lines[k], start, a)
    requires LinesEncode(lines[k + 1..], start + |lines[k]|, end, a)
    ensures LinesEncode(lines[k..], start, end, a)
  {
    assert lines[k..][0] == lines[k];
    assert lines[k..][1..] == lines[k + 1..];
  }

  /** Line 0 of the name table holds the entries for bytes 0 to 31. */
  lemma NameCharacterMapLine0()
    ensures |NameCharacterMapLines[0]| == 32 && Encodes(NameCharacterMapLines[0], 0, Name)
  {
  }

  /** Line 1 of the name table holds the entries for bytes 32 to 54. */
  lemma NameCharacterMapLine1()
    ensures |NameCharacterMapLines[1]| == 23 && Encodes(NameCharacterMapLines[1], 32, Name)
  {
  }

  /** Line 2 of the name table holds the entries for bytes 55 to 73. */
  lemma NameCharacterMapLine2()
    ensures |NameCharacterMapLines[2]| == 19 && Encodes(NameCharacterMapLines[2], 55, Name)
  {
  }

  /** Line 3 of the name table holds the entries for bytes 74 to 89. */
  lemma NameCharacterMapLine3()
    ensures |NameCharacterMapLines[3]| == 16 && Encodes(NameCharacterMapLines[3], 74, Name)
  {
  }

  /** Line 4 of the name table holds the entries for bytes 90 to 107. */
  lemma NameCharacterMapLine4()
    ensures |NameCharacterMapLines[4]| == 18 && Encodes(NameCharacterMapLines[4], 90, Name)
  {
  }

  /** Line 5 of the name table holds the entries for bytes 108 to 124. */
  lemma NameCharacterMapLine5()
    ensures |NameCharacterMapLines[5]| == 17 && Encodes(NameCharacterMapLines[5], 108, Name)
  {
  }

  /** Line 6 of the name table holds the entries for bytes 125 to 156. */
  lemma NameCharacterMapLine6()
    ensures |NameCharacterMapLines[6]| == 32 && Encodes(NameCharacterMapLines[6], 125, Name)
  {
  }

  /** Line 7 of the name table holds the entries for bytes 157 to 188. */
  lemma NameCharacterMapLine7()
    ensures |NameCharacterMapLines[7]| == 32 && Encodes(NameCharacterMapLines[7], 157, Name)
  {
  }

  /** Line 8 of the name table holds the entries for bytes 189 to 220. */
  lemma NameCharacterMapLine8()
    ensures |NameCharacterMapLines[8]| == 32 && Encodes(NameCharacterMapLines[8], 189, Name)
  {
  }

  /** Line 9 of the name table holds the entries for bytes 221 to 252. */
  lemma NameCharacterMapLine9()
    ensures |NameCharacterMapLines[9]| == 32 && Encodes(NameCharacterMapLines[9], 221, Name)
  {
  }

  /** Line 10 of the name table holds the entries for bytes 253 to 255. */
  lemma NameCharacterMapLine10()
    ensures |NameCharacterMapLines[10]| == 3 && Encodes(NameCharacterMapLines[10], 253, Name)
  {
  }

  /** Lines 6 to 10 of the name table, laid end to end, encode the name alphabet. */
  lemma NameCharacterMapLinesFrom6()
    ensures LinesEncode(NameCharacterMapLines[6..], 125, 256, Name)
  {
    var lines := NameCharacterMapLines;
    assert LinesEncode(lines[11..], 256, 256, Name);
    NameCharacterMapLine10();
    LinesEncodeFrom(lines, 10, 253, 256, Name);
    NameCharacterMapLine9();
    LinesEncodeFrom(lines, 9, 221, 256, Name);
    NameCharacterMapLine8();
    LinesEncodeFrom(lines, 8, 189, 256, Name);
    NameCharacterMapLine7();
    LinesEncodeFrom(lines, 7, 157, 256, Name);
    NameCharacterMapLine6();
    LinesEncodeFrom(lines, 6, 125, 256, Name);
  }

  /** The name table maps every name byte to itself and every other byte to null. */
  lemma NameCharacterMapEncodesAlphabet()
    ensures |NameCharacterMap| == 0x100
    ensures forall b: byte :: NameCharacterMap[b] == if IsNameChar(b) then b else 0
  {
    // Checked one line of the literal at a time, from the last line back to the first.
    var lines := NameCharacterMapLines;
    NameCharacterMapLinesFrom6();
    NameCharacterMapLine5();
    LinesEncodeFrom(lines, 5, 108, 256, Name);
    NameCharacterMapLine4();
    LinesEncodeFrom(lines, 4, 90, 256, Name);
    NameCharacterMapLine3();
    LinesEncodeFrom(lines, 3, 74, 256, Name);
    NameCharacterMapLine2();
    LinesEncodeFrom(lines, 2, 55, 256, Name);
    NameCharacterMapLine1();
    LinesEncodeFrom(lines, 1, 32, 256, Name);
    NameCharacterMapLine0();
    LinesEncodeFrom(lines, 0, 0, 256, Name);
    assert lines[0..] == lines;
    FlattenEncodes(lines, 0, 256, Name);
    EncodesEveryByte(NameCharacterMap, Name);
  }

  /** Line 0 of the value table holds the entries for bytes 0 to 29. */
  lemma ValueCharacterMapLine0()
    ensures |ValueCharacterMapLines[0]| == 30 && Encodes(ValueCharacterMapLines[0], 0, Value)
  {
  }

  /** Line 1 of the value table holds the entries for bytes 30 to 45. */
  lemma ValueCharacterMapLine1()
    ensures |ValueCharacterMapLines[1]| == 16 && Encodes(ValueCharacterMapLines[1], 30, Value)
  {
  }

  /** Line 2 of the value table holds the entries for bytes 46 to 61. */
  lemma ValueCharacterMapLine2()
    ensures |ValueCharacterMapLines[2]| == 16 && Encodes(ValueCharacterMapLines[2], 46, Value)
  {
  }

  /** Line 3 of the value table holds the entries for bytes 62 to 77. */
  lemma ValueCharacterMapLine3()
    ensures |ValueCharacterMapLines[3]| == 16 && Encodes(ValueCharacterMapLines[3], 62, Value)
  {
  }

  /** Line 4 of the value table holds the entries for bytes 78 to 92. */
  lemma ValueCharacterMapLine4()
    ensures |ValueCharacterMapLines[4]| == 15 && Encodes(ValueCharacterMapLines[4], 78, Value)
  {
  }

  /** Line 5 of the value table holds the entries for bytes 93 to 108. */
  lemma ValueCharacterMapLine5()
    ensures |ValueCharacterMapLines[5]| == 16 && Encodes(ValueCharacterMapLines[5], 93, Value)
  {
  }

  /** Line 6 of the value table holds the entries for bytes 109 to 124. */
  lemma ValueCharacterMapLine6()
    ensures |ValueCharacterMapLines[6]| == 16 && Encodes(ValueCharacterMapLines[6], 109, Value)
  {
  }

  /** Line 7 of the value table holds the entries for bytes 125 to 154. */
  lemma ValueCharacterMapLine7()
    ensures |ValueCharacterMapLines[7]| == 30 && Encodes(ValueCharacterMapLines[7], 125, Value)
  {
  }

  /** Line 8 of the value table holds the entries for bytes 155 to 186. */
  lemma ValueCharacterMapLine8()
    ensures |ValueCharacterMapLines[8]| == 32 && Encodes(ValueCharacterMapLines[8], 155, Value)
  {
  }

  /** Line 9 of the value table holds the entries for bytes 187 to 218. */
  lemma ValueCharacterMapLine9()
    ensures |ValueCharacterMapLines[9]| == 32 && Encodes(ValueCharacterMapLines[9], 187, Value)
  {
  }

  /** Line 10 of the value table holds the entries for bytes 219 to 250. */
  lemma ValueCharacterMapLine10()
    ensures |ValueCharacterMapLines[10]| == 32 && Encodes(ValueCharacterMapLines[10], 219, Value)
  {
  }

  /** Line 11 of the value table holds the entries for bytes 251 to 255. */
  lemma ValueCharacterMapLine11()
    ensures |ValueCharacterMapLines[11]| == 5 && Encodes(ValueCharacterMapLines[11], 251, Value)
  {
  }

  /** Lines 6 to 11 of the value table, laid end to end, encode the value alphabet. */
  lemma ValueCharacterMapLinesFrom6()
    ensures LinesEncode(ValueCharacterMapLines[6..], 109, 256, Value)
  {
    var lines := ValueCharacterMapLines;
    assert LinesEncode(lines[12..], 256, 256, Value);
    ValueCharacterMapLine11();
    LinesEncodeFrom(lines, 11, 251, 256, Value);
    ValueCharacterMapLine10();
    LinesEncodeFrom(lines, 10, 219, 256, Value);
    ValueCharacterMapLine9();
    LinesEncodeFrom(lines, 9, 187, 256, Value);
    ValueCharacterMapLine8();
    LinesEncodeFrom(lines, 8, 155, 256, Value);
    ValueCharacterMapLine7();
    LinesEncodeFrom(lines, 7, 125, 256, Value);
    ValueCharacterMapLine6();
    LinesEncodeFrom(lines, 6, 109, 256, Value);
  }

  /** The value table maps every value byte to itself and every other byte to null. */
  lemma ValueCharacterMapEncodesAlphabet()
    ensures |ValueCharacterMap| == 0x100
    ensures forall b: byte :: ValueCharacterMap[b] == if IsValueChar(b) then b else 0
  {
    // Checked one line of the literal at a time, from the last line back to the first.
    var lines := ValueCharacterMapLines;
    ValueCharacterMapLinesFrom6();
    ValueCharacterMapLine5();
    LinesEncodeFrom(lines, 5, 93, 256, Value);
    ValueCharacterMapLine4();
    LinesEncodeFrom(lines, 4, 78, 256, Value);
    ValueCharacterMapLine3();
    LinesEncodeFrom(lines, 3, 62, 256, Value);
    ValueCharacterMapLine2();
    LinesEncodeFrom(lines, 2, 46, 256, Value);
    ValueCharacterMapLine1();
    LinesEncodeFrom(lines, 1, 30, 256, Value);
    ValueCharacterMapLine0();
    LinesEncodeFrom(lines, 0, 0, 256, Value);
    assert lines[0..] == lines;
    FlattenEncodes(lines, 0, 256, Value);
    EncodesEveryByte(ValueCharacterMap, Value);
  }

  /** `HEADER_FIELD_NAME_CHARACTER_MAP[b as usize]`: a name byte stays, any other byte becomes null. */
  function ClassifyName(b: byte): (c: byte)
    ensures c == if IsNameChar(b) then b else 0
  {
    NameCharacterMapEncodesAlphabet();
    NameCharacterMap[b]
  }

  /** `HEADER_FIELD_VALUE_CHARACTER_MAP[b as usize]`: a value byte stays, any other byte becomes null. */
  function ClassifyValue(b: byte): (c: byte)
    ensures c == if IsValueChar(b) then b else 0
  {
    ValueCharacterMapEncodesAlphabet();
    ValueCharacterMap[b]
  }

  /** Every byte of `s` is in alphabet `a`. */
  predicate AllAccepted(a: Alphabet, s: seq<byte>) {
    forall i :: 0 <= i < |s| ==> Accepts(a, s[i])
  }

  /** Every byte of `s` is in alphabet `a` or is a null placeholder. */
  predicate AcceptedOrNull(a: Alphabet, s: seq<byte>) {
    forall i :: 0 <= i < |s| ==> s[i] == 0 || Accepts(a, s[i])
  }

  /** What the table for `a` makes of `s`, byte by byte: accepted bytes stay in place, rejected ones become null. */
  function Normalized(a: Alphabet, s: seq<byte>): seq<byte> {
    seq(|s|, i requires 0 <= i < |s| => if Accepts(a, s[i]) then s[i] else 0)
  }

  /**
   * The bytes of `s` that alphabet `a` accepts, in their order: every accepted byte
   * as often as it occurs in `s`, and no other byte.
   */
  function Accepted(a: Alphabet, s: seq<byte>): (r: seq<byte>)
    ensures |r| <= |s| && AllAccepted(a, r)
    ensures forall b :: multiset(r)[b] == if Accepts(a, b) then multiset(s)[b] else 0
  {
    if s == [] then []
    else
      assert s == [s[0]] + s[1..];
      if Accepts(a, s[0]) then [s[0]] + Accepted(a, s[1..])
      else Accepted(a, s[1..])
  }

  /** Neither alphabet contains the null byte, and both lie within 7-bit ASCII. */
  lemma AlphabetsAreAsciiWithoutNull(a: Alphabet, b: byte)
    requires Accepts(a, b)
    ensures 0 < b < 0x80
  {
  }

  /** Every name byte is also a value byte. */
  lemma NameCharsAreValueChars(b: byte)
    requires IsNameChar(b)
    ensures IsValueChar(b)
  {
  }

  /**
   * The name alphabet is a strict subset of `tchar`: every name byte is a token byte,
   * and `!`, `+` and `.` are token bytes that the name table rejects.
   */
  lemma NameCharsAreStrictlyFewerThanTchars()
    ensures forall b: byte :: IsNameChar(b) ==> IsTchar(b)
    ensures forall b: byte :: b in {'!' as byte, '+' as byte, '.' as byte} ==> IsTchar(b) && !IsNameChar(b)
  {
  }

  /** Normalizing keeps the length, keeps accepted bytes and puts null exactly where a byte is rejected. */
  lemma NormalizedAt(a: Alphabet, s: seq<byte>, i: int)
    requires 0 <= i < |s|
    ensures |Normalized(a, s)| == |s|
    ensures Normalized(a, s)[i] == 0 <==> !Accepts(a, s[i])
    ensures Normalized(a, s)[i] != 0 ==> Normalized(a, s)[i] == s[i]
  {
    if Accepts(a, s[i]) {
      AlphabetsAreAsciiWithoutNull(a, s[i]);
    }
  }

  /** Alphabet bytes and null placeholders are ASCII, which is why the unchecked UTF-8 views need no check. */
  lemma AsciiWhenNormal(a: Alphabet, s: seq<byte>)
    requires AcceptedOrNull(a, s)
    ensures IsAscii(s)
  {
    forall i | 0 <= i < |s| && s[i] != 0 ensures s[i] < 0x80 {
      AlphabetsAreAsciiWithoutNull(a, s[i]);
    }
  }

  /** A normalized sequence holds only accepted bytes and null placeholders, all of them ASCII. */
  lemma NormalizedIsAcceptedOrNull(a: Alphabet, s: seq<byte>)
    ensures AcceptedOrNull(a, Normalized(a, s)) && IsAscii(Normalized(a, s))
  {
    forall i | 0 <= i < |s| ensures Normalized(a, s)[i] < 0x80 {
      if Accepts(a, s[i]) {
        AlphabetsAreAsciiWithoutNull(a, s[i]);
      }
    }
  }

  /** Normalizing leaves no placeholder exactly when every byte is accepted, and then changes nothing. */
  lemma NormalizedHasNoNullsIff(a: Alphabet, s: seq<byte>)
    ensures NoNulls(Normalized(a, s)) <==> AllAccepted(a, s)
    ensures AllAccepted(a, s) ==> Normalized(a, s) == s
  {
    if !AllAccepted(a, s) {
      var i :| 0 <= i < |s| && !Accepts(a, s[i]);
      NormalizedAt(a, s, i);
    } else {
      forall i | 0 <= i < |s| ensures Normalized(a, s)[i] != 0 {
        NormalizedAt(a, s, i);
      }
    }
  }

  /** A sequence of accepted bytes and placeholders is all accepted bytes once the placeholders are stripped. */
  lemma StripNullsLeavesAccepted(a: Alphabet, s: seq<byte>)
    requires AcceptedOrNull(a, s)
    ensures AllAccepted(a, StripNulls(s))
  {
    StripNullsMembers(s);
    forall i | 0 <= i < |StripNulls(s)| ensures Accepts(a, StripNulls(s)[i]) {
      var b := StripNulls(s)[i];
      assert b in StripNulls(s);
      var j :| 0 <= j < |s| && s[j] == b;
    }
  }

  /**
   * Normalizing and then stripping the placeholders, the `from_bytes_unchecked` then `clean`
   * protocol, keeps exactly the accepted bytes of the input, in their order.
   */
  lemma {:induction false} StripNormalizedIsAccepted(a: Alphabet, s: seq<byte>)
    ensures StripNulls(Normalized(a, s)) == Accepted(a, s)
  {
    if s != [] {
      NormalizedAt(a, s, 0);
      assert Normalized(a, s)[1..] == Normalized(a, s[1..]);
      StripNormalizedIsAccepted(a, s[1..]);
    }
  }

  /**
   * On what the unchecked constructors build, removing the null placeholders (`clean`)
   * is the same as keeping the alphabet bytes.
   */
  lemma {:induction false} StripNullsIsAcceptedWhenNormal(a: Alphabet, s: seq<byte>)
    requires AcceptedOrNull(a, s)
    ensures StripNulls(s) == Accepted(a, s)
  {
    if s != [] {
      if s[0] != 0 {
        AlphabetsAreAsciiWithoutNull(a, s[0]);
      }
      StripNullsIsAcceptedWhenNormal(a, s[1..]);
    }
  }
}
