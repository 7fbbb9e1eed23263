/**
 * The validation attributes on the user record (Models/User.cs:12-36). Each regular expression
 * is read as a whole-string match over ASCII, which is how the validation attribute applies a
 * pattern (the match must start at 0 and cover the whole value).
 */
module UserValidation {
  import opened Wrappers
  import opened Linq
  import opened Models

  predicate IsAsciiLetter(c: char) { 'A' <= c <= 'Z' || 'a' <= c <= 'z' }
  predicate IsAsciiDigit(c: char) { '0' <= c <= '9' }
  predicate IsAlnum(c: char) { IsAsciiLetter(c) || IsAsciiDigit(c) }

  /** `[A-Za-z]+` */
  predicate Letters(s: string) {
    |s| > 0 && forall i :: 0 <= i < |s| ==> IsAsciiLetter(s[i])
  }

  /** `[A-Za-z0-9]+` */
  predicate Alnums(s: string) {
    |s| > 0 && forall i :: 0 <= i < |s| ==> IsAlnum(s[i])
  }

  /** A separator class that never matches a letter (`\s` and `\.` below). */
  predicate NotLetters(sep: char -> bool) {
    forall c :: sep(c) ==> !IsAsciiLetter(c)
  }

  /** `[A-Za-z]+(S[A-Za-z]+)*` for a one-character class `S`, as its grammar reads: one word, or a
    * word, one separator and the rest. */
  predicate Words(s: string, sep: char -> bool)
    decreases |s|
  {
    Letters(s)
    || exists i :: 0 < i < |s| - 1 && Letters(s[..i]) && sep(s[i]) && Words(s[i + 1..], sep)
  }

  /** The same language character by character: only letters and separators, a letter at both
    * ends, and no two separators side by side. */
  predicate Separated(s: string, sep: char -> bool) {
    |s| > 0 && IsAsciiLetter(s[0]) && IsAsciiLetter(s[|s| - 1])
    && (forall i :: 0 <= i < |s| ==> IsAsciiLetter(s[i]) || sep(s[i]))
    && (forall i :: 0 <= i < |s| - 1 ==> IsAsciiLetter(s[i]) || IsAsciiLetter(s[i + 1]))
  }

  /** The grammar and the character-level reading accept the same strings. */
  lemma WordsIff(s: string, sep: char -> bool)
    requires NotLetters(sep)
    ensures Words(s, sep) <==> Separated(s, sep)
  {
    if Words(s, sep) {
      WordsSeparated(s, sep);
    }
    if Separated(s, sep) {
      SeparatedWords(s, sep);
    }
  }

  lemma {:induction false} WordsSeparated(s: string, sep: char -> bool)
    requires Words(s, sep)
    ensures Separated(s, sep)
    decreases |s|
  {
    if !Letters(s) {
      var i :| 0 < i < |s| - 1 && Letters(s[..i]) && sep(s[i]) && Words(s[i + 1..], sep);
      var rest := s[i + 1..];
      WordsSeparated(rest, sep);
      assert s[0] == s[..i][0];
      assert s[|s| - 1] == rest[|rest| - 1];
      forall j | 0 <= j < |s| ensures IsAsciiLetter(s[j]) || sep(s[j]) {
        if j < i { assert s[j] == s[..i][j]; } else if j > i { assert s[j] == rest[j - i - 1]; }
      }
      forall j | 0 <= j < |s| - 1 ensures IsAsciiLetter(s[j]) || IsAsciiLetter(s[j + 1]) {
        if j < i {
          assert s[j] == s[..i][j];
        } else if j == i {
          assert s[j + 1] == rest[0];
        } else {
          assert s[j] == rest[j - i - 1] && s[j + 1] == rest[j - i];
        }
      }
    }
  }

  lemma {:induction false} SeparatedWords(s: string, sep: char -> bool)
    requires NotLetters(sep) && Separated(s, sep)
    ensures Words(s, sep)
    decreases |s|
  {
    match FirstIndex(s, sep)
    case None =>
      assert Letters(s);
    case Some(i) =>
      var rest := s[i + 1..];
      assert 0 < i < |s| - 1;
      assert Letters(s[..i]);
      assert rest[0] == s[i + 1];
      assert Separated(rest, sep) by {
        forall j | 0 <= j < |rest| ensures IsAsciiLetter(rest[j]) || sep(rest[j]) {
          assert rest[j] == s[j + i + 1];
        }
        forall j | 0 <= j < |rest| - 1 ensures IsAsciiLetter(rest[j]) || IsAsciiLetter(rest[j + 1]) {
          assert rest[j] == s[j + i + 1] && rest[j + 1] == s[j + i + 2];
        }
      }
      SeparatedWords(rest, sep);
  }

  function SpaceSep(): char -> bool { (c: char) => IsWhiteSpace(c) }
  function DotSep(): char -> bool { (c: char) => c == '.' }

  // ---------------------------------------------------------------- Email

  /** `[A-Za-z0-9][A-Za-z0-9_.]*`: before the `@`. */
  predicate LocalPart(l: string) {
    |l| > 0 && IsAlnum(l[0]) && forall i :: 1 <= i < |l| ==> IsAlnum(l[i]) || l[i] == '_' || l[i] == '.'
  }

  /** `[A-Za-z0-9]+(\.[A-Za-z]+)+`: an alphanumeric label, then one or more dotted letter labels. */
  predicate DomainPart(d: string) {
    exists i :: 0 < i < |d| - 1 && Alnums(d[..i]) && d[i] == '.' && Words(d[i + 1..], DotSep())
  }

  /** The `[RegularExpression]` pattern on Email (Models/User.cs:14). */
  predicate EmailPattern(s: string) {
    exists at :: 0 < at < |s| && LocalPart(s[..at]) && s[at] == '@' && DomainPart(s[at + 1..])
  }

  /** `[EmailAddress]`: exactly one `@`, neither first nor last. */
  predicate EmailAddressShape(s: string) {
    exists k :: 0 < k < |s| - 1 && s[k] == '@' && forall j :: 0 <= j < |s| && j != k ==> s[j] != '@'
  }

  /** Email: required, at most 100 characters, the `@` rule and the pattern (Models/User.cs:12-16). */
  predicate ValidEmail(s: string) {
    Required(s) && |s| <= 100 && EmailAddressShape(s) && EmailPattern(s)
  }

  /** No `@` occurs on either side of the pattern's `@`. */
  lemma LocalPartHasNoAt(l: string)
    requires LocalPart(l)
    ensures forall j :: 0 <= j < |l| ==> l[j] != '@'
  {
  }

  lemma DomainPartHasNoAt(d: string)
    requires DomainPart(d)
    ensures forall j :: 0 <= j < |d| ==> d[j] != '@'
  {
    var i :| 0 < i < |d| - 1 && Alnums(d[..i]) && d[i] == '.' && Words(d[i + 1..], DotSep());
    var labels := d[i + 1..];
    WordsIff(labels, DotSep());
    forall j | 0 <= j < |d| ensures d[j] != '@' {
      if j < i {
        assert d[j] == d[..i][j];
      } else if j > i {
        assert d[j] == labels[j - i - 1];
      }
    }
  }

  /** The pattern alone implies the required and the `@` rules: only the length bound adds to it. */
  lemma ValidEmailIff(s: string)
    ensures ValidEmail(s) <==> |s| <= 100 && EmailPattern(s)
  {
    if EmailPattern(s) {
      var at :| 0 < at < |s| && LocalPart(s[..at]) && s[at] == '@' && DomainPart(s[at + 1..]);
      var l, d := s[..at], s[at + 1..];
      LocalPartHasNoAt(l);
      DomainPartHasNoAt(d);
      forall j | 0 <= j < |s| && j != at ensures s[j] != '@' {
        if j < at { assert s[j] == l[j]; } else { assert s[j] == d[j - at - 1]; }
      }
      assert 0 < at < |s| - 1;
      assert !IsWhiteSpace(s[0]) by { assert s[0] == l[0]; }
    }
  }

  /** The pattern lets the part before the `@` end in a dot and hold two dots in a row. */
  lemma EmailAcceptsDoubleDot()
    ensures ValidEmail("a..@x.com")
  {
    var s := "a..@x.com";
    var d := s[4..];
    assert d == "x.com";
    assert Alnums(d[..1]);
    assert Separated(d[2..], DotSep());
    WordsIff(d[2..], DotSep());
    assert DomainPart(d);
    assert LocalPart(s[..3]);
    assert EmailPattern(s);
    ValidEmailIff(s);
  }

  // ---------------------------------------------------------------- Name

  /** Name: required, 3 to 50 characters, `^[A-Za-z]+(\s[A-Za-z]+)*$` (Models/User.cs:18-21). */
  predicate ValidName(s: string) {
    Required(s) && 3 <= |s| <= 50 && Words(s, SpaceSep())
  }

  /** A valid name is 3 to 50 characters of letters and single white-space characters, with a
    * letter at both ends. */
  lemma ValidNameIff(s: string)
    ensures ValidName(s) <==> 3 <= |s| <= 50 && Separated(s, SpaceSep())
  {
    WordsIff(s, SpaceSep());
  }

  /** `\s` is any white space, so a tab may separate the words of a name. */
  lemma NameAcceptsTab()
    ensures ValidName("Ann\tLee")
  {
    var s := "Ann\tLee";
    assert Separated(s, SpaceSep());
    ValidNameIff(s);
  }

  // ---------------------------------------------------------------- UserName

  /** UserName: required, 4 to 16 characters, `^[A-Za-z0-9]+$` (Models/User.cs:23-26). */
  predicate ValidUserName(s: string) {
    Required(s) && 4 <= |s| <= 16 && Alnums(s)
  }

  lemma ValidUserNameIff(s: string)
    ensures ValidUserName(s) <==> 4 <= |s| <= 16 && forall i :: 0 <= i < |s| ==> IsAlnum(s[i])
  {
    if 4 <= |s| && Alnums(s) {
      assert !IsWhiteSpace(s[0]);
    }
  }

  // ---------------------------------------------------------------- Password

  /** `(?=.*P)` at the start: a character in class `P` occurs before any line feed. */
  predicate LookAhead(s: string, p: char -> bool) {
    exists i :: 0 <= i < |s| && p(s[i]) && forall j :: 0 <= j < i ==> s[j] != '\n'
  }

  function DigitClass(): char -> bool { (c: char) => IsAsciiDigit(c) }
  function LowerClass(): char -> bool { (c: char) => 'a' <= c <= 'z' }
  function UpperClass(): char -> bool { (c: char) => 'A' <= c <= 'Z' }

  /** `(?=.*\d)(?=.*[a-z])(?=.*[A-Z]).{8,16}$` over the whole value: the three look-aheads, then 8
    * to 16 characters other than a line feed. */
  predicate PasswordPattern(s: string) {
    LookAhead(s, DigitClass()) && LookAhead(s, LowerClass()) && LookAhead(s, UpperClass())
    && 8 <= |s| <= 16 && forall i :: 0 <= i < |s| ==> s[i] != '\n'
  }

  /** Password: required, 8 to 16 characters, the pattern (Models/User.cs:28-30). */
  predicate ValidPassword(s: string) {
    Required(s) && 8 <= |s| <= 16 && PasswordPattern(s)
  }

  /** A valid password is 8 to 16 characters without a line feed, holding a digit, a lower-case
    * and an upper-case letter; any other character is allowed. */
  lemma ValidPasswordIff(s: string)
    ensures ValidPassword(s) <==>
      8 <= |s| <= 16 && (forall i :: 0 <= i < |s| ==> s[i] != '\n')
      && (exists i :: 0 <= i < |s| && IsAsciiDigit(s[i]))
      && (exists i :: 0 <= i < |s| && 'a' <= s[i] <= 'z')
      && (exists i :: 0 <= i < |s| && 'A' <= s[i] <= 'Z')
  {
    if 8 <= |s| <= 16 && (forall i :: 0 <= i < |s| ==> s[i] != '\n') {
      if i :| 0 <= i < |s| && IsAsciiDigit(s[i]) {
        assert DigitClass()(s[i]);
        assert !IsWhiteSpace(s[i]);
      }
      if i :| 0 <= i < |s| && 'a' <= s[i] <= 'z' { assert LowerClass()(s[i]); }
      if i :| 0 <= i < |s| && 'A' <= s[i] <= 'Z' { assert UpperClass()(s[i]); }
    }
  }

  // ---------------------------------------------------------------- MobileNumber

  /** MobileNumber: required, at most 15 characters, `^[0-9]{10}$` (Models/User.cs:34-36). */
  predicate ValidMobile(s: string) {
    Required(s) && |s| <= 15 && |s| == 10 && forall i :: 0 <= i < |s| ==> IsAsciiDigit(s[i])
  }

  /** The length bound of 15 adds nothing: a valid number is exactly ten digits. */
  lemma ValidMobileIff(s: string)
    ensures ValidMobile(s) <==> |s| == 10 && forall i :: 0 <= i < |s| ==> IsAsciiDigit(s[i])
  {
    if |s| == 10 && IsAsciiDigit(s[0]) {
      assert !IsWhiteSpace(s[0]);
    }
  }
}
