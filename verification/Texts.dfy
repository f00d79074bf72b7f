/** Python's string operations, as far as the application uses them. */
module Texts {
  /** `parts` glued together with `separator` between them. */
  function Join(parts: seq<string>, separator: string): string {
    if parts == [] then ""
    else if |parts| == 1 then parts[0]
    else parts[0] + separator + Join(parts[1..], separator)
  }

  /** The pieces of a text with one more character in front. */
  function Prepend(c: char, mark: char, parts: seq<string>): seq<string>
    requires parts != []
  {
    if c == mark then [""] + parts else [[c] + parts[0]] + parts[1..]
  }

  /** The pieces of `text` between occurrences of `mark`. */
  function Split(text: string, mark: char): (parts: seq<string>)
    ensures parts != []
    ensures forall part | part in parts :: mark !in part
  {
    if text == "" then [""] else Prepend(text[0], mark, Split(text[1..], mark))
  }

  lemma PrependConcat(c: char, mark: char, parts: seq<string>, others: seq<string>)
    requires parts != []
    ensures Prepend(c, mark, parts + others) == Prepend(c, mark, parts) + others
  {
    assert (parts + others)[1..] == parts[1..] + others;
  }

  lemma {:induction false} SplitNoMark(text: string, mark: char)
    requires mark !in text
    ensures Split(text, mark) == [text]
  {
    if text != "" {
      SplitNoMark(text[1..], mark);
      assert [text[0]] + text[1..] == text;
    }
  }

  /** Splitting distributes over a mark in the middle. */
  lemma {:induction false} SplitConcat(before: string, mark: char, after: string)
    ensures Split(before + [mark] + after, mark) == Split(before, mark) + Split(after, mark)
  {
    var text := before + [mark] + after;
    if before == "" {
      assert text[1..] == after;
    } else {
      SplitConcat(before[1..], mark, after);
      assert text[1..] == before[1..] + [mark] + after;
      PrependConcat(before[0], mark, Split(before[1..], mark), Split(after, mark));
    }
  }

  lemma SplitAt(before: string, mark: char, after: string)
    requires mark !in before
    ensures Split(before + [mark] + after, mark) == [before] + Split(after, mark)
  {
    SplitConcat(before, mark, after);
    SplitNoMark(before, mark);
  }

  lemma {:induction false} JoinConcat(parts: seq<string>, others: seq<string>, separator: string)
    requires parts != [] && others != []
    ensures Join(parts + others, separator) == Join(parts, separator) + separator + Join(others, separator)
  {
    assert (parts + others)[1..] == parts[1..] + others;
    if |parts| > 1 {
      JoinConcat(parts[1..], others, separator);
    } else {
      assert parts + others == [parts[0]] + others;
    }
  }

  /** Splitting a text and gluing the pieces gives the text back. */
  lemma {:induction false} JoinSplit(text: string, mark: char)
    ensures Join(Split(text, mark), [mark]) == text
  {
    if text != "" {
      JoinSplit(text[1..], mark);
      var rest := Split(text[1..], mark);
      var parts := Split(text, mark);
      if text[0] == mark {
        assert parts[1..] == rest;
      } else {
        assert parts[1..] == rest[1..];
      }
    }
  }

  /** Gluing pieces without the mark and splitting gives the pieces back. */
  lemma {:induction false} SplitJoin(parts: seq<string>, mark: char)
    requires parts != [] && forall part | part in parts :: mark !in part
    ensures Split(Join(parts, [mark]), mark) == parts
  {
    if |parts| == 1 {
      SplitNoMark(parts[0], mark);
    } else {
      assert forall part | part in parts[1..] :: part in parts;
      SplitJoin(parts[1..], mark);
      SplitAt(parts[0], mark, Join(parts[1..], [mark]));
    }
  }

  /** Where two texts with a mark agree, and the mark comes earlier in the first one. */
  lemma MarkEarlier(a: string, b: string, a': string, b': string, mark: char) returns (p: string)
    requires a + [mark] + b == a' + [mark] + b' && |a| < |a'|
    ensures a' == a + [mark] + p && b == p + [mark] + b'
  {
    var text := a + [mark] + b;
    p := a'[|a| + 1..];
    assert a' == text[..|a'|] && a == text[..|a|] && text[|a|] == mark;
    assert a' == a + [mark] + p;
    assert b == text[|a| + 1..] == p + [mark] + b';
  }

  lemma Regrouped(a: string, p: string, b: string, mark: char)
    ensures a + [mark] + (p + [mark] + b) == a + [mark] + p + [mark] + b
  {
  }

  lemma SameHalves(a: string, b: string, a': string, b': string, mark: char)
    requires a + [mark] + b == a' + [mark] + b' && |a| == |a'|
    ensures a == a' && b == b'
  {
    var text := a + [mark] + b;
    assert a == text[..|a|] == a' && b == text[|a| + 1..] == b';
  }

  /** Pairs of texts joined by a mark are the same text exactly if they are the same pair, or the mark
      within one of them is taken for the one between them. */
  lemma SameJoined(a: string, b: string, a': string, b': string, mark: char)
    ensures a + [mark] + b == a' + [mark] + b' <==>
            || (a == a' && b == b')
            || (exists p :: a' == a + [mark] + p && b == p + [mark] + b')
            || (exists p :: a == a' + [mark] + p && b' == p + [mark] + b)
  {
    if a + [mark] + b == a' + [mark] + b' {
      if |a| < |a'| {
        var p := MarkEarlier(a, b, a', b', mark);
      } else if |a'| < |a| {
        var p := MarkEarlier(a', b', a, b, mark);
      } else {
        SameHalves(a, b, a', b', mark);
      }
    }
    forall p | a' == a + [mark] + p && b == p + [mark] + b' ensures a + [mark] + b == a' + [mark] + b' {
      Regrouped(a, p, b', mark);
    }
    forall p | a == a' + [mark] + p && b' == p + [mark] + b ensures a + [mark] + b == a' + [mark] + b' {
      Regrouped(a', p, b, mark);
    }
  }

  /** Without the mark in the first text of either pair, only the same pair makes the same text. */
  lemma SamePair(a: string, b: string, a': string, b': string, mark: char)
    requires mark !in a && mark !in a'
    ensures a + [mark] + b == a' + [mark] + b' <==> a == a' && b == b'
  {
    SameJoined(a, b, a', b', mark);
    assert forall p :: mark in a + [mark] + p && mark in a' + [mark] + p;
  }

  /** Python's `<` on strings. */
  predicate Less(a: string, b: string) {
    b != "" && (a == "" || a[0] < b[0] || (a[0] == b[0] && Less(a[1..], b[1..])))
  }

  predicate AtMost(a: string, b: string) {
    a == b || Less(a, b)
  }

  lemma {:induction false} NotLessItself(a: string)
    ensures !Less(a, a)
  {
    if a != "" {
      NotLessItself(a[1..]);
    }
  }

  lemma {:induction false} LessIsStrict(a: string, b: string)
    ensures !(Less(a, b) && Less(b, a)) && !Less(a, a)
    ensures Less(a, b) || a == b || Less(b, a)
    decreases |a| + |b|
  {
    if a != "" && b != "" {
      LessIsStrict(a[1..], b[1..]);
      if a[0] == b[0] && a[1..] == b[1..] {
        assert a == [a[0]] + a[1..] == b;
      }
    }
    if a != "" {
      LessIsStrict(a[1..], "");
      NotLessItself(a);
    }
  }

  lemma {:induction false} LessTransitive(a: string, b: string, c: string)
    requires Less(a, b) && Less(b, c)
    ensures Less(a, c)
  {
    if a != "" && a[0] == b[0] == c[0] {
      LessTransitive(a[1..], b[1..], c[1..]);
    }
  }

  /** A difference within the first |a| == |b| characters decides, whatever follows. */
  lemma {:induction false} LessByPrefix(a: string, b: string, x: string, y: string)
    requires |a| == |b|
    ensures Less(a + x, b + y) <==> Less(a, b) || (a == b && Less(x, y))
  {
    if a == "" {
      assert a + x == x && b + y == y;
    } else {
      assert (a + x)[1..] == a[1..] + x && (b + y)[1..] == b[1..] + y;
      LessByPrefix(a[1..], b[1..], x, y);
      assert a == b <==> a[0] == b[0] && a[1..] == b[1..] by {
        assert a == [a[0]] + a[1..] && b == [b[0]] + b[1..];
      }
    }
  }
}
