/** `identity_normalize`: the form of an email address under which its owner is known. */
module Identity {
  import opened Wrappers
  import opened Texts

  function LowerChar(c: char): char {
    if 'A' <= c <= 'Z' then (c as int + 32) as char else c
  }

  function Lower(text: string): (lower: string)
    ensures |lower| == |text|
    ensures forall i | 0 <= i < |text| :: lower[i] == LowerChar(text[i])
  {
    seq(|text|, i requires 0 <= i < |text| => LowerChar(text[i]))
  }

  function Without(text: string, c: char): (rest: string)
    ensures c !in rest
    ensures forall d | d in rest :: d in text
  {
    if text == "" then ""
    else if text[0] == c then Without(text[1..], c)
    else [text[0]] + Without(text[1..], c)
  }

  /** The text up to the first occurrence of a mark. */
  function Before(text: string, mark: char): string {
    Split(text, mark)[0]
  }

  const GMAIL := "@gmail.com"

  /** "@gmail", any character and "com", in whatever case. */
  predicate GmailDomain(ending: string) {
    |ending| == 10 && forall k | 0 <= k < 10 && k != 6 :: LowerChar(ending[k]) == GMAIL[k]
  }

  predicate GmailEnding(text: string) {
    |text| >= 10 && GmailDomain(text[|text| - 10..])
  }

  /** The text without a newline at its end. */
  function Line(text: string): string {
    if text != "" && text[|text| - 1] == '\n' then text[..|text| - 1] else text
  }

  /** The regular expression `.*@gmail.com$`: its dots match anything but a newline, and its
      end may be followed by one newline. */
  predicate IsGmail(identity: string) {
    '\n' !in Line(identity) && GmailEnding(Line(identity))
  }

  function Normalized(identity: string): string {
    var spelled := if IsGmail(identity) then Without(Before(identity, '@'), '.') + GMAIL else identity;
    var parts := Split(spelled, '@');
    if |parts| == 2 then Lower(Before(parts[0], '+') + "@" + parts[1]) else Lower(spelled)
  }

  /** None for a missing address. */
  function Normalize(identity: string): Option<string> {
    if identity == "" then None else Some(Normalized(identity))
  }

  // --- the pieces -----------------------------------------------------------------------------------

  lemma {:induction false} BeforeMark(head: string, mark: char, tail: string)
    requires mark !in head
    ensures Before(head + [mark] + tail, mark) == head && Before(head, mark) == head
  {
    SplitAt(head, mark, tail);
    SplitNoMark(head, mark);
  }

  /** The part before the first mark, and what comes after it. */
  lemma {:induction false} CutAt(text: string, mark: char) returns (tail: string)
    requires mark in text
    ensures mark !in Before(text, mark) && text == Before(text, mark) + [mark] + tail
    ensures Split(text, mark) == [Before(text, mark)] + Split(tail, mark)
  {
    if text[0] == mark {
      tail := text[1..];
      assert text == "" + [mark] + tail;
      SplitAt("", mark, tail);
    } else {
      tail := CutAt(text[1..], mark);
      var head := [text[0]] + Before(text[1..], mark);
      assert text == head + [mark] + tail;
      SplitAt(head, mark, tail);
    }
  }

  lemma LowerConcat(a: string, b: string)
    ensures Lower(a + b) == Lower(a) + Lower(b)
  {
  }

  lemma LowerTwice(text: string)
    ensures Lower(Lower(text)) == Lower(text)
  {
  }

  lemma LowerKeeps(text: string, c: char)
    requires !('A' <= c <= 'Z') && !('a' <= c <= 'z')
    ensures c in Lower(text) <==> c in text
  {
    var lower := Lower(text);
    if c in text {
      var i :| 0 <= i < |text| && text[i] == c;
      assert lower[i] == c;
    }
    if c in lower {
      var i :| 0 <= i < |lower| && lower[i] == c;
      assert text[i] == c;
    }
  }

  lemma {:induction false} WithoutAbsent(text: string, c: char)
    requires c !in text
    ensures Without(text, c) == text
  {
    if text != "" {
      WithoutAbsent(text[1..], c);
    }
  }

  // --- gmail addresses --------------------------------------------------------------------------------

  /** What a gmail account is known by: the local part without dots and suffix, in lower case. */
  function Account(local: string): string {
    Lower(Without(Before(local, '+'), '.'))
  }

  lemma {:induction false} DotsAndSuffix(text: string)
    ensures Before(Without(text, '.'), '+') == Without(Before(text, '+'), '.')
  {
    if text != "" {
      DotsAndSuffix(text[1..]);
    }
  }

  lemma LowerGmail()
    ensures Lower(GMAIL) == GMAIL && Lower("@") == "@" && Lower("gmail.com") == "gmail.com"
  {
  }

  lemma PartsAround(local: string, domain: string)
    requires '@' !in local && '@' !in domain
    ensures Split(local + ['@'] + domain, '@') == [local, domain]
  {
    SplitAt(local, '@', domain);
    SplitNoMark(domain, '@');
  }

  lemma LowerAddress(head: string)
    ensures Lower(head + "@" + "gmail.com") == Lower(head) + GMAIL
  {
    assert head + "@" + "gmail.com" == head + GMAIL;
    LowerConcat(head, GMAIL);
    LowerGmail();
  }

  lemma TwoPartsNormalized(identity: string, spelled: string, head: string, domain: string)
    requires spelled == if IsGmail(identity) then Without(Before(identity, '@'), '.') + GMAIL else identity
    requires spelled == head + ['@'] + domain && '@' !in head && '@' !in domain
    ensures Normalized(identity) == Lower(Before(head, '+') + "@" + domain)
  {
    PartsAround(head, domain);
  }

  lemma {:induction false} PieceOf(text: string, mark: char)
    ensures mark !in Before(text, mark)
    ensures forall c | c in Before(text, mark) :: c in text
  {
    assert Before(text, mark) in Split(text, mark);
    if mark in text {
      var tail := CutAt(text, mark);
    } else {
      SplitNoMark(text, mark);
    }
  }

  lemma GmailNormalized(identity: string)
    requires IsGmail(identity)
    ensures Normalized(identity) == Account(Before(identity, '@')) + GMAIL
  {
    var local := Before(identity, '@');
    var plain := Without(local, '.');
    assert '@' !in plain by { PieceOf(identity, '@'); }
    TwoPartsNormalized(identity, plain + GMAIL, plain, "gmail.com") by {
      assert plain + GMAIL == plain + ['@'] + "gmail.com";
    }
    DotsAndSuffix(local);
    LowerAddress(Before(plain, '+'));
  }

  /** A gmail address, spelled with some domain in place of "gmail.com". */
  predicate GmailSpelling(local: string, domain: string) {
    && '@' !in local && '\n' !in local && '\n' !in domain
    && |domain| == 9 && GmailEnding("@" + domain)
  }

  lemma SpellingIsGmail(local: string, domain: string)
    requires GmailSpelling(local, domain)
    ensures IsGmail(local + "@" + domain) && Before(local + "@" + domain, '@') == local
  {
    var identity, ending := local + "@" + domain, "@" + domain;
    BeforeMark(local, '@', domain);
    assert identity == local + ending;
    assert identity[|identity| - 1] == domain[8];
    assert identity[|identity| - 10..] == ending == ending[|ending| - 10..];
  }

  /** Two spellings of gmail addresses are normalized to the same text if and only if they differ
      in nothing but the dots of the local part, its suffix and the case of letters. */
  lemma GmailSpellings(local: string, domain: string, local': string, domain': string)
    requires GmailSpelling(local, domain) && GmailSpelling(local', domain')
    ensures Normalize(local + "@" + domain) == Normalize(local' + "@" + domain') <==>
            Account(local) == Account(local')
  {
    SpellingIsGmail(local, domain);
    SpellingIsGmail(local', domain');
    GmailNormalized(local + "@" + domain);
    GmailNormalized(local' + "@" + domain');
    var a, b := Account(local), Account(local');
    assert (a + GMAIL)[..|a + GMAIL| - 10] == a && (b + GMAIL)[..|b + GMAIL| - 10] == b;
  }

  lemma AccountIsSettled(local: string)
    requires '@' !in local
    ensures var account := Account(local);
            && '@' !in account && '.' !in account && '+' !in account
            && Account(account) == account
            && ('\n' !in local ==> '\n' !in account)
  {
    var head := Before(local, '+');
    var plain := Without(head, '.');
    PieceOf(local, '+');
    LowerKeeps(plain, '@');
    LowerKeeps(plain, '.');
    LowerKeeps(plain, '+');
    LowerKeeps(plain, '\n');
    var account := Account(local);
    SplitNoMark(account, '+');
    WithoutAbsent(account, '.');
    LowerTwice(plain);
  }

  // --- what makes no difference -----------------------------------------------------------------------

  /** The same letter in whatever case, or the same character. */
  predicate SameLetter(c: char, d: char) {
    || c == d
    || ('A' <= c <= 'Z' && d as int == c as int + 32)
    || ('A' <= d <= 'Z' && c as int == d as int + 32)
  }

  predicate SameLetters(a: string, b: string) {
    |a| == |b| && forall i | 0 <= i < |a| :: SameLetter(a[i], b[i])
  }

  /** Lower-case texts are the same exactly for texts that differ in the case of letters only; there are no
      upper-case letters in them. */
  lemma LowerExactly(a: string, b: string)
    ensures Lower(a) == Lower(b) <==> SameLetters(a, b)
    ensures SameLetters(a, Lower(a)) && forall c | c in Lower(a) :: !('A' <= c <= 'Z')
  {
    assert forall i | 0 <= i < |a| :: SameLetter(a[i], LowerChar(a[i]));
    if Lower(a) == Lower(b) {
      forall i | 0 <= i < |a| ensures SameLetter(a[i], b[i]) {
        assert Lower(a)[i] == LowerChar(a[i]) && Lower(b)[i] == LowerChar(b[i]);
      }
    }
  }

  lemma BeforeStep(text: string, mark: char)
    requires text != ""
    ensures Before(text, mark) == if text[0] == mark then "" else [text[0]] + Before(text[1..], mark)
  {
  }

  lemma BeforeConcat(a: string, b: string, mark: char)
    ensures Before(a + b, mark) == if mark in a then Before(a, mark) else a + Before(b, mark)
  {
    if mark in a {
      var tail := CutAt(a, mark);
      assert a + b == Before(a, mark) + [mark] + (tail + b);
      BeforeMark(Before(a, mark), mark, tail + b);
    } else if mark in b {
      var tail := CutAt(b, mark);
      assert a + b == a + Before(b, mark) + [mark] + tail;
      BeforeMark(a + Before(b, mark), mark, tail);
    } else {
      SplitNoMark(b, mark);
      SplitNoMark(a + b, mark);
    }
  }

  lemma {:induction false} WithoutConcat(a: string, b: string, c: char)
    ensures Without(a + b, c) == Without(a, c) + Without(b, c)
  {
    if a == "" {
      assert a + b == b;
    } else {
      assert (a + b)[1..] == a[1..] + b;
      WithoutConcat(a[1..], b, c);
    }
  }

  /** A dot anywhere in the local part makes no difference. */
  lemma DotIsNothing(before: string, after: string)
    ensures Account(before + "." + after) == Account(before + after)
  {
    assert before + "." + after == before + ("." + after);
    BeforeConcat(before, "." + after, '+');
    BeforeConcat(before, after, '+');
    BeforeConcat(".", after, '+');
    var rest := Before(after, '+');
    WithoutConcat(before, "." + rest, '.');
    WithoutConcat(before, rest, '.');
    WithoutConcat(".", rest, '.');
    assert Without(".", '.') == "";
  }

  /** Neither does a suffix. */
  lemma SuffixIsNothing(head: string, suffix: string)
    ensures Account(head + "+" + suffix) == Account(head)
  {
    assert head + "+" + suffix == head + (['+'] + suffix);
    BeforeConcat(head, ['+'] + suffix, '+');
    assert (['+'] + suffix)[0] == '+' && Before(['+'] + suffix, '+') == "";
    if '+' !in head {
      SplitNoMark(head, '+');
      assert head + "" == head;
    }
  }

  lemma LowerOne(c: char, rest: string)
    ensures Lower([c] + rest) == [LowerChar(c)] + Lower(rest)
  {
  }

  lemma {:induction false} LowerBefore(text: string)
    ensures Before(Lower(text), '+') == Lower(Before(text, '+'))
  {
    if text != "" {
      assert text == [text[0]] + text[1..];
      LowerOne(text[0], text[1..]);
      BeforeStep(text, '+');
      BeforeStep(Lower(text), '+');
      LowerBefore(text[1..]);
      LowerOne(text[0], Before(text[1..], '+'));
    }
  }

  lemma {:induction false} LowerWithout(text: string)
    ensures Without(Lower(text), '.') == Lower(Without(text, '.'))
  {
    if text != "" {
      assert text == [text[0]] + text[1..];
      LowerOne(text[0], text[1..]);
      LowerWithout(text[1..]);
      LowerOne(text[0], Without(text[1..], '.'));
    }
  }

  /** Nor the case of letters. */
  lemma CaseIsNothing(local: string, local': string)
    requires SameLetters(local, local')
    ensures Account(local) == Account(local')
  {
    LowerExactly(local, local');
    LowerBefore(local);
    LowerBefore(local');
    LowerWithout(Before(local, '+'));
    LowerWithout(Before(local', '+'));
  }

  /** And what is left without them is the account: so two local parts are the same account exactly if dots,
      suffix and case can be changed to make them the same. */
  lemma PlainIsAccount(local: string)
    requires '.' !in local && '+' !in local && forall c | c in local :: !('A' <= c <= 'Z')
    ensures Account(local) == local
  {
    SplitNoMark(local, '+');
    WithoutAbsent(local, '.');
    forall i | 0 <= i < |local| ensures LowerChar(local[i]) == local[i] {
      assert local[i] in local;
    }
  }

  lemma DomainExactly(ending: string, pattern: string)
    requires |ending| == 10 == |pattern| && pattern[..6] == "@gmail" && pattern[7..] == "com" && pattern[6] == ending[6]
    ensures GmailDomain(ending) <==> SameLetters(ending, pattern)
  {
    assert forall k | 0 <= k < 6 :: pattern[k] == pattern[..6][k] == GMAIL[k];
    assert forall k | 7 <= k < 10 :: pattern[k] == pattern[7..][k - 7] == GMAIL[k];
    forall k | 0 <= k < 10 && k != 6 ensures SameLetter(ending[k], pattern[k]) <==> LowerChar(ending[k]) == GMAIL[k] {
    }
  }

  /** On one line, an address is a gmail address exactly if it ends in "@gmail", any character and "com" in whatever
      case. */
  lemma GmailExactly(text: string)
    requires '\n' !in text
    ensures IsGmail(text) <==>
            |text| >= 10 && SameLetters(text[|text| - 10..], "@gmail" + [text[|text| - 4]] + "com")
  {
    if text != "" {
      assert text[|text| - 1] in text;
    }
    if |text| >= 10 {
      DomainExactly(text[|text| - 10..], "@gmail" + [text[|text| - 4]] + "com");
    }
  }

  /** A newline after an address makes no difference to that, and one within it makes it none. */
  lemma NewlineExactly(text: string, after: string)
    requires '\n' !in text
    ensures IsGmail(text + ['\n']) <==> IsGmail(text)
    ensures after != "" && after != "\n" ==> !IsGmail(text + ['\n'] + after)
  {
    var line, long := text + ['\n'], text + ['\n'] + after;
    if text != "" {
      assert text[|text| - 1] in text;
    }
    assert Line(text) == text && line[..|line| - 1] == text;
    if after != "" && after != "\n" {
      assert long[|text|] == '\n';
      assert |after| == 1 ==> after[0] != '\n';
      assert |text| < |Line(long)| && Line(long)[|text|] == '\n';
    }
  }

  lemma OtherNormalized(local: string, domain: string)
    requires '@' !in local && '@' !in domain && !IsGmail(local + "@" + domain)
    ensures Normalized(local + "@" + domain) == Lower(Before(local, '+')) + ['@'] + Lower(domain)
  {
    var head := Before(local, '+');
    assert local + "@" + domain == local + ['@'] + domain;
    TwoPartsNormalized(local + "@" + domain, local + "@" + domain, local, domain);
    LowerConcat(head + "@", domain);
    LowerConcat(head, "@");
    LowerGmail();
  }

  lemma SameAddress(local: string, domain: string, local': string, domain': string)
    requires '@' !in local && '@' !in local'
    ensures local + ['@'] + domain == local' + ['@'] + domain' <==> local == local' && domain == domain'
  {
    BeforeMark(local, '@', domain);
    BeforeMark(local', '@', domain');
    if local == local' {
      assert (local + ['@'] + domain)[|local| + 1..] == domain;
      assert (local' + ['@'] + domain')[|local'| + 1..] == domain';
    }
  }

  /** Two other addresses are normalized to the same text if and only if they differ in nothing but the suffix of the
      local part and the case of letters: their dots count. */
  lemma OtherSpellings(local: string, domain: string, local': string, domain': string)
    requires '@' !in local && '@' !in domain && '@' !in local' && '@' !in domain'
    requires !IsGmail(local + "@" + domain) && !IsGmail(local' + "@" + domain')
    ensures Normalize(local + "@" + domain) == Normalize(local' + "@" + domain') <==>
            SameLetters(Before(local, '+'), Before(local', '+')) && SameLetters(domain, domain')
  {
    var head, head' := Before(local, '+'), Before(local', '+');
    OtherNormalized(local, domain);
    OtherNormalized(local', domain');
    LowerExactly(head, head');
    LowerExactly(domain, domain');
    PieceOf(local, '+');
    PieceOf(local', '+');
    LowerKeeps(head, '@');
    LowerKeeps(head', '@');
    SameAddress(Lower(head), Lower(domain), Lower(head'), Lower(domain'));
  }

  /** Whatever has not exactly one "@" only loses its case. */
  lemma OddSpellings(a: string, b: string)
    requires a != "" && b != "" && !IsGmail(a) && !IsGmail(b)
    requires |Split(a, '@')| != 2 && |Split(b, '@')| != 2
    ensures Normalize(a) == Normalize(b) <==> SameLetters(a, b)
  {
    LowerExactly(a, b);
  }

  // --- normalizing twice ------------------------------------------------------------------------------

  lemma AccountNormalized(account: string)
    requires '@' !in account && '\n' !in account
    ensures Normalized(account + GMAIL) == Account(account) + GMAIL
  {
    assert GmailSpelling(account, "gmail.com") by {
      LowerGmail();
      assert "@" + "gmail.com" == GMAIL;
    }
    assert account + GMAIL == account + "@" + "gmail.com";
    SpellingIsGmail(account, "gmail.com");
    GmailNormalized(account + GMAIL);
  }

  /** The local part of a gmail address lies on its line. */
  lemma GmailHasAt(identity: string)
    requires IsGmail(identity)
    ensures '\n' !in Before(identity, '@')
  {
    var line := Line(identity);
    var i := |line| - 10;
    assert LowerChar(line[i..][0]) == GMAIL[0] == '@';
    assert identity[i] == '@' && '@' in identity;
    var tail := CutAt(identity, '@');
    var local := Before(identity, '@');
    assert forall j | 0 <= j < |local| :: local[j] == identity[j] && local[j] in local;
    assert |local| <= i;
    assert forall j | 0 <= j < |local| :: local[j] == line[j];
  }

  lemma GmailIsSettled(identity: string)
    requires IsGmail(identity)
    ensures Normalized(Normalized(identity)) == Normalized(identity)
  {
    var local := Before(identity, '@');
    GmailNormalized(identity);
    PieceOf(identity, '@');
    GmailHasAt(identity);
    AccountIsSettled(local);
    AccountNormalized(Account(local));
  }

  lemma LineInAnyCase(text: string)
    ensures Line(Lower(text)) == Lower(Line(text))
  {
    if text != "" {
      assert Lower(text)[..|text| - 1] == Lower(text[..|text| - 1]);
    }
  }

  lemma DomainInAnyCase(ending: string)
    requires |ending| == 10
    ensures GmailDomain(Lower(ending)) == GmailDomain(ending)
  {
    var lower := Lower(ending);
    forall k | 0 <= k < 10 ensures LowerChar(lower[k]) == LowerChar(ending[k]) {
      assert lower[k] == LowerChar(ending[k]);
    }
  }

  lemma EndingInAnyCase(text: string)
    ensures GmailEnding(Lower(text)) == GmailEnding(text)
  {
    if |text| >= 10 {
      var ending := text[|text| - 10..];
      assert Lower(text)[|text| - 10..] == Lower(ending);
      DomainInAnyCase(ending);
    }
  }

  lemma GmailInAnyCase(text: string)
    ensures IsGmail(Lower(text)) == IsGmail(text)
  {
    var line := Line(text);
    LineInAnyCase(text);
    LowerKeeps(line, '\n');
    EndingInAnyCase(line);
  }

  lemma {:induction false} PartsInAnyCase(text: string)
    ensures |Split(Lower(text), '@')| == |Split(text, '@')|
  {
    if text != "" {
      assert Lower(text)[1..] == Lower(text[1..]);
      PartsInAnyCase(text[1..]);
    }
  }

  /** The address without its suffix would be taken for a gmail address with something to rewrite,
      but the address itself is not, since a newline in the suffix hides it from the test. */
  predicate SuffixHides(identity: string) {
    var parts := Split(identity, '@');
    && |parts| == 2 && !IsGmail(identity)
    && var head, domain := Before(parts[0], '+'), parts[1];
       && IsGmail(head + "@" + domain)
       && ('.' in head || Lower(domain) != "gmail.com")
  }

  /** All addresses of this kind drift when normalized again. */
  lemma NewlineInSuffixHides(head: string, suffix: string, domain: string)
    requires GmailSpelling(head, domain) && '.' in head && '+' !in head
    requires '\n' in suffix && '@' !in suffix && '@' !in domain
    ensures SuffixHides(head + "+" + suffix + "@" + domain)
  {
    var local := head + ['+'] + suffix;
    var identity := local + ['@'] + domain;
    assert head + "+" + suffix + "@" + domain == identity;
    PartsAround(local, domain);
    BeforeMark(head, '+', suffix);
    SpellingIsGmail(head, domain);
    assert identity[|identity| - 1] == domain[8];
    var i :| 0 <= i < |suffix| && suffix[i] == '\n';
    assert identity[|head| + 1 + i] == '\n';
  }

  lemma TwoParts(identity: string)
    requires |Split(identity, '@')| == 2
    ensures var parts := Split(identity, '@');
            '@' !in parts[0] && '@' !in parts[1] && identity == parts[0] + "@" + parts[1]
  {
    var parts := Split(identity, '@');
    assert parts[0] in parts && parts[1] in parts;
    JoinSplit(identity, '@');
    assert Join(parts[1..], "@") == parts[1];
  }

  lemma RewrittenDiffers(low: string, domain: string)
    requires '@' !in low && '@' !in domain && '+' !in low && Lower(low) == low
    ensures Account(low) + GMAIL == low + ['@'] + domain <==> '.' !in low && domain == "gmail.com"
  {
    var account := Account(low);
    assert '@' !in account && '.' !in account by { AccountIsSettled(low); }
    assert account + GMAIL == account + ['@'] + "gmail.com";
    SameAddress(account, "gmail.com", low, domain);
    if '.' !in low {
      SplitNoMark(low, '+');
      WithoutAbsent(low, '.');
    }
  }

  /** What the second normalization makes of an address that the first one did not rewrite. */
  lemma AgainWithoutSuffix(head: string, domain: string)
    requires '@' !in head && '+' !in head && '@' !in domain
    ensures var once := Lower(head + "@" + domain);
            Normalized(once) == once <==>
            !(IsGmail(head + "@" + domain) && ('.' in head || Lower(domain) != "gmail.com"))
  {
    var address := head + "@" + domain;
    var once, low, lowDomain := Lower(address), Lower(head), Lower(domain);
    LowerConcat(head + "@", domain);
    LowerConcat(head, "@");
    assert once == low + ['@'] + lowDomain;
    GmailInAnyCase(address);
    LowerKeeps(head, '@');
    LowerKeeps(head, '+');
    LowerKeeps(head, '.');
    LowerKeeps(domain, '@');
    BeforeMark(low, '@', lowDomain);
    SplitNoMark(low, '+');
    if IsGmail(address) {
      GmailNormalized(once);
      LowerTwice(head);
      RewrittenDiffers(low, lowDomain);
    } else {
      PartsAround(low, lowDomain);
      LowerTwice(address);
      assert Normalized(once) == Lower(low + "@" + lowDomain);
    }
  }

  /** Normalizing is idempotent exactly on the addresses whose suffix hides nothing. */
  lemma NormalizedTwiceExactly(identity: string)
    ensures Normalized(Normalized(identity)) == Normalized(identity) <==> !SuffixHides(identity)
  {
    var parts := Split(identity, '@');
    if IsGmail(identity) {
      GmailIsSettled(identity);
    } else if |parts| == 2 {
      TwoParts(identity);
      PieceOf(parts[0], '+');
      AgainWithoutSuffix(Before(parts[0], '+'), parts[1]);
    } else {
      GmailInAnyCase(identity);
      PartsInAnyCase(identity);
      LowerTwice(identity);
    }
  }

  lemma NeverEmpty(identity: string)
    requires identity != ""
    ensures Normalized(identity) != ""
  {
    if IsGmail(identity) {
      GmailNormalized(identity);
    }
  }

  lemma SuffixMatters(head: string, local: string, domain: string)
    requires '@' !in local && '@' !in head && '@' !in domain
    requires '\n' !in local && '\n' !in domain && '\n' !in head
    requires IsGmail(head + "@" + domain)
    ensures IsGmail(local + "@" + domain)
  {
    var short, long := head + "@" + domain, local + "@" + domain;
    assert short[|short| - 1] != '\n' && long[|long| - 1] != '\n';
    var i := |short| - 10;
    assert LowerChar(short[i..][0]) == GMAIL[0] == '@';
    assert short[i] == '@';
    assert |head| <= i;
    assert forall j | |head| < j < |short| :: short[j] == domain[j - |head| - 1] && short[j] in domain;
    assert i == |head|;
    assert short[i..] == ['@'] + domain == long[|long| - 10..];
  }

  /** So it is idempotent on every address without a newline. */
  lemma NormalizeIdempotent(identity: string)
    requires '\n' !in identity && identity != ""
    ensures Normalize(Normalize(identity).value) == Normalize(identity)
  {
    NormalizedTwiceExactly(identity);
    var parts := Split(identity, '@');
    if |parts| == 2 && IsGmail(Before(parts[0], '+') + "@" + parts[1]) {
      TwoParts(identity);
      PieceOf(parts[0], '+');
      SuffixMatters(Before(parts[0], '+'), parts[0], parts[1]);
    }
    NeverEmpty(identity);
  }
}
