/** `gen_id`: record IDs that start with the date, written as a numeral over a set of characters. */
module Numerals {
  import opened Arithmetic
  import opened Texts

  function CharAt(i: nat): char
    requires i < 64
  {
    if i == 0 then '-'
    else if i <= 10 then (i - 1 + '0' as int) as char
    else if i <= 36 then (i - 11 + 'A' as int) as char
    else if i == 37 then '_'
    else (i - 38 + 'a' as int) as char
  }

  predicate Ascending(chars: string) {
    forall i, j | 0 <= i < j < |chars| :: chars[i] < chars[j]
  }

  /** A dash, the ten digits, the upper-case letters, an underscore and the lower-case letters. */
  function RadixChars(): (chars: string)
    ensures |chars| == 64 && Ascending(chars)
  {
    seq(64, i requires 0 <= i < 64 => CharAt(i))
  }

  /** These and no others. */
  lemma RadixExactly(c: char)
    ensures c in RadixChars() <==>
            c == '-' || '0' <= c <= '9' || 'A' <= c <= 'Z' || c == '_' || 'a' <= c <= 'z'
  {
    var chars := RadixChars();
    var i := if c == '-' then 0
             else if '0' <= c <= '9' then c as int - '0' as int + 1
             else if 'A' <= c <= 'Z' then c as int - 'A' as int + 11
             else if c == '_' then 37
             else c as int - 'a' as int + 38;
    if 0 <= i < 64 {
      assert chars[i] == CharAt(i);
    }
    forall j | 0 <= j < 64 ensures chars[j] == CharAt(j) {}
  }

  const DIGITS := "0123456789"

  function LStrip(text: string, c: char): string {
    if text != "" && text[0] == c then LStrip(text[1..], c) else text
  }

  function Int2Base(x: nat, chars: string): string
    requires 2 <= |chars|
  {
    if x == 0 then [chars[0]]
    else LStrip(Int2Base(x / |chars|, chars), chars[0]) + [chars[x % |chars|]]
  }

  /** The value of a digit, or |chars| for a character that is none. */
  function Digit(c: char, chars: string): (i: nat)
    ensures i <= |chars| && (i < |chars| ==> chars[i] == c)
    ensures i == |chars| ==> c !in chars
  {
    if chars == "" || chars[0] == c then 0 else 1 + Digit(c, chars[1..])
  }

  function Decode(text: string, chars: string): nat {
    if text == "" then 0
    else Decode(text[..|text| - 1], chars) * |chars| + Digit(text[|text| - 1], chars)
  }

  lemma QuotientIsSmaller(x: nat, b: nat)
    requires 2 <= b
    ensures x < b ==> x / b == 0 && x % b == x
    ensures b <= x ==> 0 < x / b
    ensures x != 0 ==> x / b < x
  {
    Division(x, b);
    Multiples(1, b, x / b);
  }

  lemma AscendingIsDistinct(chars: string, i: nat)
    requires Ascending(chars) && i < |chars|
    ensures Digit(chars[i], chars) == i
  {
    var j := Digit(chars[i], chars);
    assert chars[i] in chars;
  }

  /** The quotient's digits, or none for a quotient of zero. */
  function Leading(q: nat, chars: string): string
    requires 2 <= |chars|
  {
    if q == 0 then "" else Int2Base(q, chars)
  }

  lemma Unfold(x: nat, q: nat, d: nat, chars: string)
    requires 2 <= |chars| && x != 0 && q == x / |chars| && d == x % |chars|
    ensures Int2Base(x, chars) == LStrip(Int2Base(q, chars), chars[0]) + [chars[d]]
  {
  }

  lemma Stripped(q: nat, chars: string)
    requires 2 <= |chars|
    requires q != 0 ==> Int2Base(q, chars) != "" && Int2Base(q, chars)[0] != chars[0]
    ensures LStrip(Int2Base(q, chars), chars[0]) == Leading(q, chars)
  {
    if q == 0 {
      assert LStrip([chars[0]], chars[0]) == LStrip([chars[0]][1..], chars[0]) == "";
    }
  }

  lemma LeadingDigit(x: nat, q: nat, d: nat, chars: string)
    requires 2 <= |chars| && Ascending(chars) && d < |chars| && (q == 0 ==> d != 0)
    requires Int2Base(x, chars) == LStrip(Int2Base(q, chars), chars[0]) + [chars[d]]
    requires q != 0 ==> Int2Base(q, chars) != "" && Int2Base(q, chars)[0] != chars[0]
    ensures Int2Base(x, chars) == Leading(q, chars) + [chars[d]]
    ensures Int2Base(x, chars)[0] != chars[0]
  {
    Stripped(q, chars);
    if q == 0 {
      assert chars[0] < chars[d];
    }
  }

  /** A numeral is the numeral of the quotient with one more digit; the stripping of zeros
      loses nothing, because there is no leading zero to strip. */
  lemma {:induction false} NoLeadingZero(x: nat, q: nat, d: nat, chars: string)
    requires 2 <= |chars| && Ascending(chars) && x != 0 && q == x / |chars| && d == x % |chars|
    ensures Int2Base(x, chars) == Leading(q, chars) + [chars[d]]
    ensures Int2Base(x, chars)[0] != chars[0]
    decreases x
  {
    assert q < x && d < |chars| && (q == 0 ==> d != 0) by { QuotientIsSmaller(x, |chars|); }
    assert Int2Base(x, chars) == LStrip(Int2Base(q, chars), chars[0]) + [chars[d]] by { Unfold(x, q, d, chars); }
    if q != 0 {
      NoLeadingZero(q, q / |chars|, q % |chars|, chars);
    }
    LeadingDigit(x, q, d, chars);
  }

  lemma DecodeSnoc(text: string, c: char, chars: string)
    ensures Decode(text + [c], chars) == Decode(text, chars) * |chars| + Digit(c, chars)
  {
    assert (text + [c])[..|text|] == text;
  }

  /** Every numeral decodes to the number it was made of. */
  lemma {:induction false} DecodesBack(x: nat, chars: string)
    requires 2 <= |chars| && Ascending(chars)
    ensures Decode(Int2Base(x, chars), chars) == x
  {
    var b := |chars|;
    var q, d := x / b, x % b;
    Division(x, b);
    QuotientIsSmaller(x, b);
    AscendingIsDistinct(chars, d);
    DecodeSnoc(Leading(q, chars), chars[d], chars);
    if x == 0 {
      assert Leading(q, chars) + [chars[d]] == Int2Base(x, chars);
    } else {
      NoLeadingZero(x, q, d, chars);
      if q != 0 {
        DecodesBack(q, chars);
      }
    }
  }

  lemma {:induction false} DigitsOnly(x: nat, chars: string)
    requires 2 <= |chars| && Ascending(chars)
    ensures forall c | c in Int2Base(x, chars) :: c in chars
  {
    if x != 0 {
      var q, d := x / |chars|, x % |chars|;
      QuotientIsSmaller(x, |chars|);
      NoLeadingZero(x, q, d, chars);
      if q != 0 {
        DigitsOnly(q, chars);
      }
    }
  }

  lemma LessDigits(chars: string, i: nat, j: nat)
    requires Ascending(chars) && i < |chars| && j < |chars|
    ensures Less([chars[i]], [chars[j]]) <==> i < j
  {
  }

  lemma ByQuotient(x: nat, y: nat, b: nat)
    requires 0 < b
    ensures x < y <==> x / b < y / b || (x / b == y / b && x % b < y % b)
  {
    Division(x, b);
    Division(y, b);
    Multiples(x / b, y / b, b);
    Multiples(y / b, x / b, b);
  }

  lemma NotEmpty(x: nat, chars: string)
    requires 2 <= |chars|
    ensures Int2Base(x, chars) != ""
  {
  }

  /** Numbers below the base, and only those, have a single digit. */
  lemma SingleDigit(x: nat, chars: string)
    requires 2 <= |chars| && Ascending(chars)
    ensures |Int2Base(x, chars)| == 1 <==> x < |chars|
    ensures x < |chars| ==> Int2Base(x, chars) == [chars[x]]
  {
    if x != 0 {
      var b := |chars|;
      var q, d := x / b, x % b;
      QuotientIsSmaller(x, b);
      NoLeadingZero(x, q, d, chars);
      NotEmpty(q, chars);
    }
  }

  /** Between numerals of the same length, the order of the numbers is that of the texts. */
  lemma {:induction false} OrderKept(x: nat, y: nat, chars: string)
    requires 2 <= |chars| && Ascending(chars)
    requires |Int2Base(x, chars)| == |Int2Base(y, chars)|
    ensures x < y <==> Less(Int2Base(x, chars), Int2Base(y, chars))
  {
    var b := |chars|;
    SingleDigit(x, chars);
    SingleDigit(y, chars);
    if b <= x && b <= y {
      var p, c, q, d := x / b, x % b, y / b, y % b;
      QuotientIsSmaller(x, b);
      QuotientIsSmaller(y, b);
      NoLeadingZero(x, p, c, chars);
      NoLeadingZero(y, q, d, chars);
      OrderKept(p, q, chars);
      DecodesBack(p, chars);
      DecodesBack(q, chars);
      LessByPrefix(Int2Base(p, chars), Int2Base(q, chars), [chars[c]], [chars[d]]);
      LessDigits(chars, c, d);
      ByQuotient(x, y, b);
    } else {
      LessDigits(chars, x, y);
    }
  }

  /** Exactly the numbers from 64 * 64 up to, but not including, 64 * 64 * 64 have three digits. */
  lemma ThreeDigits(x: nat)
    ensures |Int2Base(x, RadixChars())| == 3 <==> 4096 <= x < 262144
  {
    var chars := RadixChars();
    SingleDigit(x, chars);
    if 64 <= x {
      var q := x / 64;
      NoLeadingZero(x, q, x % 64, chars);
      SingleDigit(q, chars);
      if 64 <= q {
        NoLeadingZero(q, q / 64, q % 64, chars);
        SingleDigit(q / 64, chars);
      }
    }
  }

  // --- record IDs ---------------------------------------------------------------------------------

  /** The number behind the date part: `day` counts from the start of 2018, and `spread` is random
      from 0 to 8, both included. */
  function DateNumber(day: nat, spread: nat): nat {
    day * 8 + spread
  }

  function DatePart(day: nat, spread: nat): string {
    Int2Base(DateNumber(day, spread), RadixChars())
  }

  function GenId(prefix: string, day: nat, spread: nat, suffix: string): string {
    prefix + DatePart(day, spread) + suffix
  }

  /** The days whose date part has three characters, whatever the random spread. */
  lemma ThreeCharacterDays(day: nat)
    ensures (forall spread | 0 <= spread <= 8 :: |DatePart(day, spread)| == 3) <==> 512 <= day <= 32766
  {
    forall spread: nat | spread <= 8
      ensures |DatePart(day, spread)| == 3 <==> 4096 <= day * 8 + spread < 262144
    {
      ThreeDigits(DateNumber(day, spread));
    }
    assert |DatePart(day, 0)| == 3 <==> 4096 <= day * 8 < 262144;
    assert |DatePart(day, 8)| == 3 <==> 4096 <= day * 8 + 8 < 262144;
  }

  /** Date parts compare like their numbers. */
  lemma DatePartsCompare(day: nat, spread: nat, later: nat, spread': nat)
    requires 512 <= day <= 32766 && 512 <= later <= 32766 && spread <= 8 && spread' <= 8
    ensures var a, b := DatePart(day, spread), DatePart(later, spread');
            && |a| == |b|
            && (Less(a, b) <==> DateNumber(day, spread) < DateNumber(later, spread'))
            && (a == b <==> DateNumber(day, spread) == DateNumber(later, spread'))
  {
    var x, y, chars := DateNumber(day, spread), DateNumber(later, spread'), RadixChars();
    ThreeDigits(x);
    ThreeDigits(y);
    OrderKept(x, y, chars);
    DecodesBack(x, chars);
    DecodesBack(y, chars);
  }

  /** On these days the date part never runs against the calendar. */
  lemma DatePartsNeverInvert(day: nat, spread: nat, later: nat, spread': nat)
    requires 512 <= day < later <= 32766 && spread <= 8 && spread' <= 8
    ensures AtMost(DatePart(day, spread), DatePart(later, spread'))
  {
    DatePartsCompare(day, spread, later, spread');
  }

  ghost predicate AlwaysSorts(prefix: string, day: nat, later: nat) {
    forall spread: nat, spread': nat, suffix, suffix' | spread <= 8 && spread' <= 8 ::
      Less(GenId(prefix, day, spread, suffix), GenId(prefix, later, spread', suffix'))
  }

  lemma ThreePieces(prefix: string, a: string, b: string, suffix: string, suffix': string)
    requires |a| == |b|
    ensures Less(prefix + a + suffix, prefix + b + suffix') <==> Less(a, b) || (a == b && Less(suffix, suffix'))
  {
    LessByPrefix(a, b, suffix, suffix');
    LessByPrefix(prefix, prefix, a + suffix, b + suffix');
    NotLessItself(prefix);
    assert prefix + a + suffix == prefix + (a + suffix) && prefix + b + suffix' == prefix + (b + suffix');
  }

  lemma IdsCompare(prefix: string, day: nat, spread: nat, suffix: string, later: nat, spread': nat, suffix': string)
    requires 512 <= day <= 32766 && 512 <= later <= 32766 && spread <= 8 && spread' <= 8
    ensures Less(GenId(prefix, day, spread, suffix), GenId(prefix, later, spread', suffix')) <==>
            DateNumber(day, spread) < DateNumber(later, spread') ||
            (DateNumber(day, spread) == DateNumber(later, spread') && Less(suffix, suffix'))
  {
    var a, b := DatePart(day, spread), DatePart(later, spread');
    DatePartsCompare(day, spread, later, spread');
    ThreePieces(prefix, a, b, suffix, suffix');
  }

  /** IDs with the same prefix are sure to sort by date if and only if they are at least two days
      apart: the last spread of one day is the first one of the next. */
  lemma IdsSortExactlyWhen(prefix: string, day: nat, later: nat)
    requires 512 <= day <= 32766 && 512 <= later <= 32766
    ensures AlwaysSorts(prefix, day, later) <==> day + 2 <= later
  {
    if day + 2 <= later {
      forall spread: nat, spread': nat, suffix, suffix' | spread <= 8 && spread' <= 8
        ensures Less(GenId(prefix, day, spread, suffix), GenId(prefix, later, spread', suffix'))
      {
        IdsCompare(prefix, day, spread, suffix, later, spread', suffix');
      }
    } else {
      IdsCompare(prefix, day, 8, "", later, 0, "");
    }
  }
}
