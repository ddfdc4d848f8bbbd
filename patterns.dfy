/**
 * The pure match conditions of the analyser: the source-file name test,
 * the case-insensitive credential pattern, prefix tests on raw literal
 * text, and the ASCII lower-casing used for repository names.
 */
module Patterns {

  /** A file is analysed when its name is longer than three characters and ends in ".go". */
  predicate IsGoFile(name: string) {
    |name| > 3 && name[|name| - 3..] == ".go"
  }

  /** Accepted names are exactly the ".go" names with a non-empty stem. */
  lemma IsGoFileIffStem(name: string)
    ensures IsGoFile(name) <==> exists stem :: |stem| > 0 && name == stem + ".go"
  {
    if IsGoFile(name) {
      var stem := name[..|name| - 3];
      assert name == stem + ".go";
    }
    if exists stem :: |stem| > 0 && name == stem + ".go" {
      var stem :| |stem| > 0 && name == stem + ".go";
      assert name[|name| - 3..] == ".go";
    }
  }

  /** The cases the file-eligibility test is known to decide. */
  lemma IsGoFileExamples()
    ensures IsGoFile("main.go")
    ensures !IsGoFile("main.txt") && !IsGoFile("") && !IsGoFile("file") && !IsGoFile(".go")
  {
  }

  /**
   * Prefix test on characters; the source's test is on bytes, which agrees
   * with it for the ASCII prefixes used here (see README).
   */
  predicate HasPrefix(s: string, prefix: string) {
    |prefix| <= |s| && s[..|prefix|] == prefix
  }

  /** ASCII lower-casing of one character. */
  function ToLowerAscii(c: char): char {
    if 'A' <= c <= 'Z' then (c as int + 32) as char else c
  }

  /** No character of `s` is an ASCII capital. */
  predicate IsLowerAscii(s: string) {
    forall i :: 0 <= i < |s| ==> !('A' <= s[i] <= 'Z')
  }

  /** `a` and `b` are equal when ASCII capitals are not told apart from their lower-case letters. */
  predicate EqIgnoringAsciiCase(a: string, b: string) {
    |a| == |b| && forall i :: 0 <= i < |a| ==> ToLowerAscii(a[i]) == ToLowerAscii(b[i])
  }

  /**
   * ASCII lower-casing of a string: the result has no ASCII capital, equals
   * the input up to ASCII case, and leaves a string without capitals as it is.
   */
  function ToLower(s: string): (r: string)
    ensures |r| == |s|
    ensures forall i :: 0 <= i < |s| ==> r[i] == ToLowerAscii(s[i])
    ensures IsLowerAscii(r)
    ensures EqIgnoringAsciiCase(s, r)
    ensures IsLowerAscii(s) ==> r == s
  {
    seq(|s|, i requires 0 <= i < |s| => ToLowerAscii(s[i]))
  }

  /**
   * Case folding as a case-insensitive regular expression applies it to
   * the letters of the credential pattern: an ASCII upper-case letter
   * folds to its lower-case form, LATIN SMALL LETTER LONG S folds to 's'
   * and KELVIN SIGN folds to 'k'; every other character stands for itself.
   */
  function Fold(c: char): char {
    if c == '\U{017F}' then 's'
    else if c == '\U{212A}' then 'k'
    else ToLowerAscii(c)
  }

  /**
   * For a lower-case ASCII letter `x`, the characters that fold to `x` are
   * `x` itself, its upper-case form, and for 's' and 'k' the long s and the
   * Kelvin sign.
   */
  lemma FoldOrbit(c: char, x: char)
    requires 'a' <= x <= 'z'
    ensures Fold(c) == x <==>
      c == x || c as int == x as int - 32
      || (x == 's' && c == '\U{017F}') || (x == 'k' && c == '\U{212A}')
  {
  }

  /** The alternatives of the credential pattern, in lower case. */
  const CredentialWords: seq<string> := ["password", "secret", "token", "apikey", "auth"]

  /** `w` occurs in `s` at index `i`, comparing case-insensitively. */
  predicate FoldMatchAt(s: string, i: nat, w: string) {
    i + |w| <= |s| && forall t :: 0 <= t < |w| ==> Fold(s[i + t]) == w[t]
  }

  /** Some alternative of the credential pattern starts at index `i` of `s`. */
  predicate CredentialWordAt(s: string, i: nat) {
    exists k | 0 <= k < |CredentialWords| :: FoldMatchAt(s, i, CredentialWords[k])
  }

  /** `s` contains one of the credential words somewhere, case-insensitively. */
  ghost predicate ContainsCredentialWord(s: string) {
    exists i, k :: 0 <= i <= |s| && 0 <= k < |CredentialWords| && FoldMatchAt(s, i, CredentialWords[k])
  }

  /** Unanchored search for the credential pattern, trying each start index from `i` on. */
  function SearchCredentialFrom(s: string, i: nat): (r: bool)
    requires i <= |s|
    ensures r <==> exists j, k :: i <= j <= |s| && 0 <= k < |CredentialWords| && FoldMatchAt(s, j, CredentialWords[k])
    decreases |s| - i
  {
    if CredentialWordAt(s, i) then true
    else if i == |s| then false
    else SearchCredentialFrom(s, i + 1)
  }

  /** Whether `(?i)(password|secret|token|apikey|auth)` matches somewhere in `s`. */
  function MatchesCredentialPattern(s: string): (r: bool)
    ensures r <==> ContainsCredentialWord(s)
  {
    SearchCredentialFrom(s, 0)
  }

  /** Every credential word starts with 'p', 's', 't' or 'a'. */
  predicate IsCredentialInitial(c: char) {
    c == 'p' || c == 's' || c == 't' || c == 'a'
  }

  /** A string none of whose characters folds to a credential initial contains no credential word. */
  lemma NoCredentialWithoutInitial(s: string)
    requires forall i :: 0 <= i < |s| ==> !IsCredentialInitial(Fold(s[i]))
    ensures !ContainsCredentialWord(s)
  {
    forall i, k | 0 <= i <= |s| && 0 <= k < |CredentialWords|
      ensures !FoldMatchAt(s, i, CredentialWords[k])
    {
      assert IsCredentialInitial(CredentialWords[k][0]);
      if i < |s| {
        assert !IsCredentialInitial(Fold(s[i + 0]));
      }
    }
  }

  /** Raw literals the credential detector is known to accept. */
  lemma CredentialPatternAccepts()
    ensures MatchesCredentialPattern("\"password123\"")
    ensures MatchesCredentialPattern("\"APIKEY12345\"")
  {
    assert FoldMatchAt("\"password123\"", 1, CredentialWords[0]);
    assert FoldMatchAt("\"APIKEY12345\"", 1, CredentialWords[3]);
  }

  /** Raw literals the credential detector is known to reject. */
  lemma CredentialPatternRejects()
    ensures !MatchesCredentialPattern("\"Hello, World!\"")
    ensures !MatchesCredentialPattern("\"\"")
  {
    NoCredentialWithoutInitial("\"Hello, World!\"");
    NoCredentialWithoutInitial("\"\"");
  }
}
