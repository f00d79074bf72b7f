/** The texts that travel through the API: pagination cursors in base64, and the composite IDs
    of records in the trashcan. */
module Cursor {
  import opened Wrappers
  import opened Texts
  import Numerals

  // --- base64 (RFC 4648, section 4) -----------------------------------------------------------------

  type Sextet = s: int | 0 <= s < 64

  function SextetChar(s: Sextet): char {
    if s < 26 then (s + 'A' as int) as char
    else if s < 52 then (s - 26 + 'a' as int) as char
    else if s < 62 then (s - 52 + '0' as int) as char
    else if s == 62 then '+'
    else '/'
  }

  function CharSextet(c: char): Option<Sextet> {
    if 'A' <= c <= 'Z' then Some(c as int - 'A' as int)
    else if 'a' <= c <= 'z' then Some(c as int - 'a' as int + 26)
    else if '0' <= c <= '9' then Some(c as int - '0' as int + 52)
    else if c == '+' then Some(62)
    else if c == '/' then Some(63)
    else None
  }

  /** The digits of an encoding, and how they are read. */
  datatype Alphabet = Alphabet(toChar: Sextet -> char, toSextet: char -> Option<Sextet>) {
    ghost predicate Inverse() {
      toSextet('=').None? && forall s: Sextet :: toSextet(toChar(s)) == Some(s)
    }
  }

  const BASE64 := Alphabet(SextetChar, CharSextet)

  lemma Base64Inverse()
    ensures BASE64.Inverse()
  {
  }

  function Sextets(a: Byte, b: Byte, c: Byte): (Sextet, Sextet, Sextet, Sextet) {
    (a / 4, a % 4 * 16 + b / 16, b % 16 * 4 + c / 64, c % 64)
  }

  function Group(digits: Alphabet, a: Byte, b: Byte, c: Byte): (group: string)
    ensures |group| == 4
  {
    var (s, t, u, v) := Sextets(a, b, c);
    [digits.toChar(s), digits.toChar(t), digits.toChar(u), digits.toChar(v)]
  }

  /** Three bytes make four characters; one or two bytes at the end are padded with '='. */
  function Encode(digits: Alphabet, bytes: seq<Byte>): string {
    if bytes == [] then ""
    else if |bytes| == 1 then Group(digits, bytes[0], 0, 0)[..2] + "=="
    else if |bytes| == 2 then Group(digits, bytes[0], bytes[1], 0)[..3] + "="
    else Group(digits, bytes[0], bytes[1], bytes[2]) + Encode(digits, bytes[3..])
  }

  /** The bytes of one group of four characters; only the last group may be padded. */
  function DecodeGroup(digits: Alphabet, group: string, last: bool): Option<seq<Byte>>
    requires |group| == 4
  {
    var s, t := digits.toSextet(group[0]), digits.toSextet(group[1]);
    var u, v := digits.toSextet(group[2]), digits.toSextet(group[3]);
    if s.None? || t.None? then None
    else
      var first: Byte := s.value * 4 + t.value / 16;
      if u.None? then (if last && group[2..] == "==" then Some([first]) else None)
      else
        var second: Byte := t.value % 16 * 16 + u.value / 4;
        if v.None? then (if last && group[3] == '=' then Some([first, second]) else None)
        else Some([first, second, u.value % 4 * 64 + v.value])
  }

  function Decode(digits: Alphabet, text: string): Option<seq<Byte>> {
    if text == "" then Some([])
    else if |text| < 4 then None
    else
      var group, rest := DecodeGroup(digits, text[..4], |text| == 4), Decode(digits, text[4..]);
      if group.None? || rest.None? then None else Some(group.value + rest.value)
  }

  /** Table 1 of RFC 4648: the upper-case letters, the lower-case ones and the ten digits in their order, a plus
      and a slash. */
  lemma AlphabetOfRfc4648()
    ensures SextetChar(0) == 'A' && SextetChar(25) == 'Z' && SextetChar(26) == 'a' && SextetChar(51) == 'z'
    ensures SextetChar(52) == '0' && SextetChar(61) == '9' && SextetChar(62) == '+' && SextetChar(63) == '/'
    ensures forall s: Sextet | s != 25 && s != 51 && s < 61 :: SextetChar(s + 1) as int == SextetChar(s) as int + 1
  {
  }

  /** Three bytes and four sextets are the same number. */
  lemma SextetsAreDigits(a: Byte, b: Byte, c: Byte)
    ensures var (s, t, u, v) := Sextets(a, b, c);
            ((s * 64 + t) * 64 + u) * 64 + v == (a * 256 + b) * 256 + c
  {
  }

  /** Bytes cut into pieces of six and two, and of four and four bits, and put together again. */
  lemma Regroup(a: Byte, b: Byte, c: Byte)
    ensures var (s, t, u, v) := Sextets(a, b, c);
            s * 4 + t / 16 == a && t % 16 * 16 + u / 4 == b && u % 4 * 64 + v == c
  {
  }

  lemma FullGroup(digits: Alphabet, a: Byte, b: Byte, c: Byte, last: bool)
    requires digits.Inverse()
    ensures DecodeGroup(digits, Group(digits, a, b, c), last) == Some([a, b, c])
  {
    Regroup(a, b, c);
  }

  lemma PaddedGroups(digits: Alphabet, a: Byte, b: Byte)
    requires digits.Inverse()
    ensures DecodeGroup(digits, Group(digits, a, 0, 0)[..2] + "==", true) == Some([a])
    ensures DecodeGroup(digits, Group(digits, a, b, 0)[..3] + "=", true) == Some([a, b])
  {
    Regroup(a, 0, 0);
    Regroup(a, b, 0);
    assert (Group(digits, a, 0, 0)[..2] + "==")[2..] == "==";
  }

  lemma DecodeAfter(digits: Alphabet, group: string, bytes: seq<Byte>, rest: string, tail: seq<Byte>)
    requires |group| == 4 && DecodeGroup(digits, group, rest == "") == Some(bytes)
    requires Decode(digits, rest) == Some(tail)
    ensures Decode(digits, group + rest) == Some(bytes + tail)
  {
    assert (group + rest)[..4] == group && (group + rest)[4..] == rest;
  }

  lemma DecodePadded(digits: Alphabet, bytes: seq<Byte>)
    requires digits.Inverse() && 1 <= |bytes| <= 2
    ensures Decode(digits, Encode(digits, bytes)) == Some(bytes)
  {
    var text := Encode(digits, bytes);
    PaddedGroups(digits, bytes[0], bytes[|bytes| - 1]);
    assert bytes == if |bytes| == 1 then [bytes[0]] else [bytes[0], bytes[1]];
    DecodeAfter(digits, text, bytes, "", []);
    assert text + "" == text && bytes + [] == bytes;
  }

  /** Decoding inverts encoding, for every sequence of bytes. */
  lemma {:induction false} DecodeEncode(digits: Alphabet, bytes: seq<Byte>)
    requires digits.Inverse()
    ensures Decode(digits, Encode(digits, bytes)) == Some(bytes)
  {
    if 1 <= |bytes| <= 2 {
      DecodePadded(digits, bytes);
    } else if bytes != [] {
      var a, b, c, rest := bytes[0], bytes[1], bytes[2], bytes[3..];
      FullGroup(digits, a, b, c, Encode(digits, rest) == "");
      DecodeEncode(digits, rest);
      DecodeAfter(digits, Group(digits, a, b, c), [a, b, c], Encode(digits, rest), rest);
      assert bytes == [a, b, c] + rest;
    }
  }

  // --- character encodings ---------------------------------------------------------------------------

  /** UTF-8 (RFC 3629, section 3) of one character. */
  function Utf8Char(c: char): (bytes: seq<Byte>)
    ensures bytes != [] && (bytes[0] < 128 <==> c as int < 128)
  {
    var n := c as int;
    if n < 0x80 then [n]
    else if n < 0x800 then [0xC0 + n / 0x40, 0x80 + n % 0x40]
    else if n < 0x1_0000 then [0xE0 + n / 0x1000, 0x80 + n / 0x40 % 0x40, 0x80 + n % 0x40]
    else [0xF0 + n / 0x4_0000, 0x80 + n / 0x1000 % 0x40, 0x80 + n / 0x40 % 0x40, 0x80 + n % 0x40]
  }

  /** The character that a sequence of bytes stands for, by the bits of its first byte. */
  function Utf8Value(bytes: seq<Byte>): int
    requires 1 <= |bytes| <= 4
  {
    if |bytes| == 1 then bytes[0] as int
    else if |bytes| == 2 then (bytes[0] as int - 0xC0) * 64 + (bytes[1] as int - 0x80)
    else if |bytes| == 3 then ((bytes[0] as int - 0xE0) * 64 + (bytes[1] as int - 0x80)) * 64 + (bytes[2] as int - 0x80)
    else (((bytes[0] as int - 0xF0) * 64 + (bytes[1] as int - 0x80)) * 64 + (bytes[2] as int - 0x80)) * 64 + (bytes[3] as int - 0x80)
  }

  /** A number is made of its digits to the base 64. */
  lemma Digits(n: nat)
    ensures n / 0x40 * 64 + n % 0x40 == n
    ensures (n / 0x1000 * 64 + n / 0x40 % 0x40) * 64 + n % 0x40 == n
    ensures ((n / 0x4_0000 * 64 + n / 0x1000 % 0x40) * 64 + n / 0x40 % 0x40) * 64 + n % 0x40 == n
  {
    var m := n / 0x40;
    assert n == m * 64 + n % 0x40;
    var k := m / 0x40;
    assert m == k * 64 + m % 0x40;
    assert n / 0x1000 == k;
    var l := k / 0x40;
    assert k == l * 64 + k % 0x40;
    assert n / 0x4_0000 == l;
  }

  /** The bytes of a character stand for it, and its first byte tells how many there are. */
  lemma Utf8Exactly(c: char)
    ensures var bytes := Utf8Char(c);
            && 1 <= |bytes| <= 4 && Utf8Value(bytes) == c as int
            && |bytes| == (if bytes[0] < 0x80 then 1 else if bytes[0] < 0xE0 then 2 else if bytes[0] < 0xF0 then 3 else 4)
  {
    Digits(c as int);
  }

  /** The bytes after the first one are told from first ones. */
  lemma Utf8Continues(c: char, i: nat)
    requires 1 <= i < |Utf8Char(c)|
    ensures 0x80 <= Utf8Char(c)[i] < 0xC0 && (Utf8Char(c)[0] < 0x80 || 0xC0 <= Utf8Char(c)[0])
  {
  }

  function Utf8(text: string): seq<Byte> {
    if text == "" then [] else Utf8Char(text[0]) + Utf8(text[1..])
  }

  /** Decoding as ASCII fails on any byte from 128 on. */
  function FromAscii(bytes: seq<Byte>): Option<string> {
    if bytes == [] then Some("")
    else if bytes[0] >= 128 then None
    else
      var rest := FromAscii(bytes[1..]);
      if rest.None? then None else Some([bytes[0] as char] + rest.value)
  }

  predicate IsAscii(text: string) {
    forall i | 0 <= i < |text| :: text[i] as int < 128
  }

  lemma {:induction false} AsciiOfUtf8(text: string)
    ensures FromAscii(Utf8(text)) == if IsAscii(text) then Some(text) else None
  {
    if text != "" {
      var bytes := Utf8Char(text[0]);
      AsciiOfUtf8(text[1..]);
      assert Utf8(text)[0] == bytes[0];
      assert IsAscii(text) <==> text[0] as int < 128 && IsAscii(text[1..]) by {
        assert forall i | 0 <= i < |text[1..]| :: text[1..][i] == text[i + 1];
      }
      if text[0] as int < 128 {
        assert |bytes| == 1 && Utf8(text)[1..] == Utf8(text[1..]);
        assert [text[0]] + text[1..] == text;
      }
    }
  }

  function ToB64(text: string): string {
    Encode(BASE64, Utf8(text))
  }

  function FromB64(text: string): Option<string> {
    var bytes := Decode(BASE64, text);
    if bytes.None? then None else FromAscii(bytes.value)
  }

  /** The two are inverse exactly on ASCII texts: encoding writes UTF-8, decoding reads ASCII. */
  lemma FromB64Inverts(text: string)
    ensures FromB64(ToB64(text)) == if IsAscii(text) then Some(text) else None
  {
    Base64Inverse();
    DecodeEncode(BASE64, Utf8(text));
    AsciiOfUtf8(text);
  }

  // --- cursors -----------------------------------------------------------------------------------------

  datatype Position = Position(resource: string, offset: nat)

  function PrintNat(n: nat): string {
    Numerals.Int2Base(n, Numerals.DIGITS)
  }

  function ParseNat(text: string): Option<nat> {
    if text != "" && forall c | c in text :: c in Numerals.DIGITS then Some(Numerals.Decode(text, Numerals.DIGITS))
    else None
  }

  function Print(position: Position): string {
    ToB64("cursor:" + position.resource + ":" + PrintNat(position.offset))
  }

  /** None where the conversion raises an exception. */
  function Parse(cursor: string): Option<Position> {
    match FromB64(cursor)
    case None => None
    case Some(text) =>
      var parts := Split(text, ':');
      if |parts| < 3 then None
      else
        var offset := ParseNat(parts[2]);
        if offset.None? then None else Some(Position(parts[1], offset.value))
  }

  lemma ParsePrintNat(n: nat)
    ensures ParseNat(PrintNat(n)) == Some(n)
    ensures forall c | c in PrintNat(n) :: '0' <= c <= '9'
  {
    Numerals.DecodesBack(n, Numerals.DIGITS);
    Numerals.DigitsOnly(n, Numerals.DIGITS);
    Numerals.NotEmpty(n, Numerals.DIGITS);
  }

  lemma CursorIsAscii(resource: string, number: string)
    requires IsAscii(number)
    ensures IsAscii("cursor:" + resource + ":" + number) <==> IsAscii(resource)
  {
    var text := "cursor:" + resource + ":" + number;
    assert forall i | 0 <= i < |resource| :: resource[i] == text[7 + i];
    assert text[8 + |resource|..] == number;
  }

  lemma CursorParts(resource: string, number: string)
    requires ':' !in number
    ensures var parts := Split("cursor:" + resource + ":" + number, ':');
            if ':' in resource then |parts| < 3 || parts[1] != resource else parts == ["cursor", resource, number]
  {
    var text := "cursor:" + resource + ":" + number;
    if ':' !in resource {
      assert text == "cursor" + [':'] + (resource + [':'] + number);
      SplitAt("cursor", ':', resource + [':'] + number);
      SplitAt(resource, ':', number);
      SplitNoMark(number, ':');
    } else {
      var parts := Split(text, ':');
      assert |parts| >= 3 ==> parts[1] in parts;
    }
  }

  /** Printing and parsing a cursor is the identity, for every offset, exactly for the resources
      whose name is ASCII without a colon. */
  lemma ParsePrint(position: Position)
    ensures Parse(Print(position)) == Some(position) <==> IsAscii(position.resource) && ':' !in position.resource
  {
    var resource, number := position.resource, PrintNat(position.offset);
    ParsePrintNat(position.offset);
    assert ':' !in number && forall i | 0 <= i < |number| :: number[i] in number;
    FromB64Inverts("cursor:" + resource + ":" + number);
    CursorIsAscii(resource, number);
    CursorParts(resource, number);
  }

  /** The cursor of a list with a single table. */
  function PrintOffset(offset: nat): string {
    ToB64("cursor:" + PrintNat(offset))
  }

  function ParseOffset(cursor: string): Option<nat> {
    match FromB64(cursor)
    case None => None
    case Some(text) =>
      var parts := Split(text, ':');
      if |parts| < 2 then None else ParseNat(parts[1])
  }

  lemma TwoPieces(word: string, number: string)
    requires ':' !in word && ':' !in number
    ensures Split(word + [':'] + number, ':') == [word, number]
  {
    SplitAt(word, ':', number);
    SplitNoMark(number, ':');
  }

  lemma NumberIsAscii(n: nat, before: string)
    requires IsAscii(before)
    ensures IsAscii(before + PrintNat(n)) && ':' !in PrintNat(n)
  {
    ParsePrintNat(n);
    assert forall i | 0 <= i < |PrintNat(n)| :: PrintNat(n)[i] in PrintNat(n);
  }

  lemma OffsetText(offset: nat)
    ensures var text := "cursor:" + PrintNat(offset);
            FromB64(PrintOffset(offset)) == Some(text) && Split(text, ':') == ["cursor", PrintNat(offset)]
  {
    var number := PrintNat(offset);
    NumberIsAscii(offset, "cursor:");
    TwoPieces("cursor", number);
    assert "cursor:" + number == "cursor" + [':'] + number;
    FromB64Inverts("cursor:" + number);
  }

  /** Printing and parsing is the identity; and a list over many tables does not take the cursor of a
      single table for one of its own. */
  lemma ParsePrintOffset(offset: nat)
    ensures ParseOffset(PrintOffset(offset)) == Some(offset)
    ensures Parse(PrintOffset(offset)).None?
  {
    OffsetText(offset);
    ParsePrintNat(offset);
  }

  /** The other way round they are told apart exactly if the resource's name is no number. */
  lemma PositionIsNoOffset(position: Position)
    requires IsAscii(position.resource) && ':' !in position.resource
    ensures ParseOffset(Print(position)).None? <==> ParseNat(position.resource).None?
  {
    var resource, number := position.resource, PrintNat(position.offset);
    ParsePrintNat(position.offset);
    assert ':' !in number && forall i | 0 <= i < |number| :: number[i] in number;
    FromB64Inverts("cursor:" + resource + ":" + number);
    CursorIsAscii(resource, number);
    CursorParts(resource, number);
  }

  // --- composite IDs --------------------------------------------------------------------------------------

  function CompositeId(resource: string, id: string): string {
    resource + "-" + id
  }

  /** `id.split('-', maxsplit=1)` taken apart into two; None when there is no dash. */
  function ParseComposite(text: string): Option<(string, string)> {
    if text == "" then None
    else if text[0] == '-' then Some(("", text[1..]))
    else
      var rest := ParseComposite(text[1..]);
      if rest.None? then None else Some(([text[0]] + rest.value.0, rest.value.1))
  }

  /** A composite ID is taken apart into what it was made of, for every record ID, exactly if the
      resource's name has no dash. */
  lemma {:induction false} ParseCompositeId(resource: string, id: string)
    ensures ParseComposite(CompositeId(resource, id)) == Some((resource, id)) <==> '-' !in resource
  {
    var text := CompositeId(resource, id);
    if resource == "" {
      assert text[1..] == id;
    } else {
      assert text[1..] == CompositeId(resource[1..], id);
      assert resource == [resource[0]] + resource[1..];
      ParseCompositeId(resource[1..], id);
      if resource[0] != '-' {
        var rest := ParseComposite(text[1..]);
        assert rest == Some((resource[1..], id)) <==> ParseComposite(text) == Some((resource, id)) by {
          if rest.Some? {
            assert ([text[0]] + rest.value.0)[1..] == rest.value.0;
          }
        }
      }
    }
  }
}
