/** The field constraints the records declare with javax.validation
    annotations, as predicates on strings. */
module Constraints {

  /** `@NotBlank` fails on a string that `String.trim()` empties: one made
      only of characters up to U+0020. */
  predicate IsBlank(s: string)
    ensures s == [] ==> IsBlank(s)
    ensures IsBlank(s) ==> forall i | 0 <= i < |s| :: !IsLetter(s[i]) && !('0' <= s[i] <= '9')
  {
    forall i | 0 <= i < |s| :: s[i] <= ' '
  }

  /** The characters the regular-expression class `\s` matches. */
  predicate IsRegexSpace(c: char)
  {
    c == ' ' || c == '\t' || c == '\n' || c == '\U{0B}' || c == '\U{0C}' || c == '\r'
  }

  /** `@Pattern(regexp = "^\\S*$")`: no character of the class `\s`. */
  predicate HasNoRegexSpace(s: string)
    ensures HasNoRegexSpace(s) ==> ' ' !in s && '\t' !in s && '\n' !in s
  {
    forall i | 0 <= i < |s| :: !IsRegexSpace(s[i])
  }

  /** The class `[a-zA-Z0-9._%+-]` of the e-mail pattern's local part. */
  predicate IsLocalChar(c: char)
  {
    ('a' <= c <= 'z') || ('A' <= c <= 'Z') || ('0' <= c <= '9')
    || c == '.' || c == '_' || c == '%' || c == '+' || c == '-'
  }

  /** The class `[a-zA-Z0-9.-]` of the e-mail pattern's domain part. */
  predicate IsDomainChar(c: char)
  {
    ('a' <= c <= 'z') || ('A' <= c <= 'Z') || ('0' <= c <= '9') || c == '.' || c == '-'
  }

  predicate IsLetter(c: char)
  {
    ('a' <= c <= 'z') || ('A' <= c <= 'Z')
  }

  /** What the unescaped `.` of a Java pattern matches: any character but a
      line terminator. */
  predicate IsAnyButLineEnd(c: char)
  {
    c != '\n' && c != '\r' && c != '\U{85}' && c != '\U{2028}' && c != '\U{2029}'
  }

  /** The tail `[a-zA-Z0-9.-]+.[a-zA-Z]{2,6}` after the `@`: a non-empty
      domain, one more character, then two to six letters. */
  predicate MatchesDomainTail(d: string)
  {
    exists k | 2 <= k <= 6 :: DomainTailSplit(d, k)
  }

  /** `d` is a domain, a separator and a final run of `k` letters. */
  predicate DomainTailSplit(d: string, k: nat)
  {
    k + 2 <= |d|
    && (forall i | |d| - k <= i < |d| :: IsLetter(d[i]))
    && IsAnyButLineEnd(d[|d| - k - 1])
    && (forall i | 0 <= i < |d| - k - 1 :: IsDomainChar(d[i]))
  }

  /** `^[a-zA-Z0-9._%+-]+@[a-zA-Z0-9.-]+.[a-zA-Z]{2,6}$`, the pattern given
      to `@Email` on the user's e-mail: some split of the string into a
      non-empty local part, an `@` and a matching tail. A match holds an `@`
      and has at least six characters: one local, `@`, one domain, one
      separator, two letters. */
  predicate MatchesEmailPattern(s: string)
    ensures MatchesEmailPattern(s) ==> '@' in s && |s| >= 6
  {
    exists at | 0 < at < |s| ::
      s[at] == '@'
      && (forall i | 0 <= i < at :: IsLocalChar(s[i]))
      && MatchesDomainTail(s[at + 1..])
  }

  /** "vasya@mail.ru" matches the pattern. */
  lemma SampleAddressMatches()
    ensures MatchesEmailPattern("vasya@mail.ru")
  {
    var s := "vasya@mail.ru";
    var d := s[6..];
    assert d == "mail.ru";
    assert DomainTailSplit(d, 2);
    assert MatchesDomainTail(d);
    assert s[5] == '@' && (forall i | 0 <= i < 5 :: IsLocalChar(s[i]));
  }

  /** An address without an `@` does not match. */
  lemma AddressWithoutAtFails()
    ensures !MatchesEmailPattern("exexample.ru")
  {
    var s := "exexample.ru";
    assert forall i | 0 <= i < |s| :: s[i] != '@';
  }
}
