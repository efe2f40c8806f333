/**
 * The address check of user registration: the regular expression
 * ^[a-zA-Z0-9._%+-]+@[a-zA-Z0-9.-]+\.[a-zA-Z]{2,}$
 * stated twice, once as the set of strings the expression matches (MatchesPattern, some
 * way of splitting the string into local part, "@", domain, "." and top-level label) and
 * once as a deterministic test that splits at the first "@" and the last "." (IsValidEmail).
 * EmailCheckMatchesPattern proves that the two agree on every string.
 */
module EmailPattern {
  import opened Wrappers

  predicate IsAsciiLetter(c: char) {
    'a' <= c <= 'z' || 'A' <= c <= 'Z'
  }

  predicate IsAsciiDigit(c: char) {
    '0' <= c <= '9'
  }

  /** [a-zA-Z0-9._%+-] */
  predicate IsLocalChar(c: char) {
    IsAsciiLetter(c) || IsAsciiDigit(c) || c == '.' || c == '_' || c == '%' || c == '+' || c == '-'
  }

  /** [a-zA-Z0-9.-] */
  predicate IsDomainChar(c: char) {
    IsAsciiLetter(c) || IsAsciiDigit(c) || c == '.' || c == '-'
  }

  predicate AllLocal(s: string) {
    forall i :: 0 <= i < |s| ==> IsLocalChar(s[i])
  }

  predicate AllDomain(s: string) {
    forall i :: 0 <= i < |s| ==> IsDomainChar(s[i])
  }

  predicate AllLetters(s: string) {
    forall i :: 0 <= i < |s| ==> IsAsciiLetter(s[i])
  }

  /**
   * The expression matches s with its "@" at position a and its "\." at position d:
   * a non-empty local part before a, a non-empty domain label between them, and at
   * least two letters after d up to the end of the string.
   */
  predicate MatchesAt(s: string, a: nat, d: nat) {
    && 0 < a && a + 1 < d && d + 2 < |s|
    && s[a] == '@' && s[d] == '.'
    && AllLocal(s[..a]) && AllDomain(s[a + 1..d]) && AllLetters(s[d + 1..])
  }

  ghost predicate MatchesPattern(s: string) {
    exists a: nat, d: nat :: MatchesAt(s, a, d)
  }

  /** The position of the first c in s at or after k. */
  function FirstIndexOf(s: string, c: char, k: nat): (r: Option<nat>)
    ensures r.Some? ==> k <= r.value < |s| && s[r.value] == c
    ensures r.Some? ==> forall i :: k <= i < r.value ==> s[i] != c
    ensures r.None? ==> forall i :: k <= i < |s| ==> s[i] != c
    decreases |s| - k
  {
    if k >= |s| then None
    else if s[k] == c then Some(k)
    else FirstIndexOf(s, c, k + 1)
  }

  /** The position of the last c in s before k. */
  function LastIndexOf(s: string, c: char, k: nat): (r: Option<nat>)
    requires k <= |s|
    ensures r.Some? ==> r.value < k && s[r.value] == c
    ensures r.Some? ==> forall i :: r.value < i < k ==> s[i] != c
    ensures r.None? ==> forall i :: 0 <= i < k ==> s[i] != c
  {
    if k == 0 then None
    else if s[k - 1] == c then Some(k - 1)
    else LastIndexOf(s, c, k - 1)
  }

  /**
   * The registration check: split at the first "@" and at the last "."; that "." must
   * lie in the domain, after its first character.
   */
  predicate IsValidEmail(s: string)
    ensures IsValidEmail(s) ==> |s| >= 6 && s[0] != '@' && s[|s| - 1] != '.' && '@' in s
  {
    match FirstIndexOf(s, '@', 0)
    case None => false
    case Some(a) =>
      && 0 < a && AllLocal(s[..a]) && AllDomain(s[a + 1..])
      && match LastIndexOf(s, '.', |s|)
         case None => false
         case Some(d) => a + 1 < d && d + 2 < |s| && AllLetters(s[d + 1..])
  }

  lemma ValidEmailMatches(s: string)
    requires IsValidEmail(s)
    ensures MatchesPattern(s)
  {
    var a := FirstIndexOf(s, '@', 0).value;
    var d := LastIndexOf(s, '.', |s|).value;
    var domain := s[a + 1..];
    assert forall i :: 0 <= i < d - a - 1 ==> s[a + 1..d][i] == domain[i];
    assert MatchesAt(s, a, d);
  }

  lemma MatchIsValidEmail(s: string, a: nat, d: nat)
    requires MatchesAt(s, a, d)
    ensures IsValidEmail(s)
  {
    assert forall i :: 0 <= i < a ==> s[..a][i] == s[i];
    assert FirstIndexOf(s, '@', 0) == Some(a);
    assert forall i :: a < i < d ==> s[i] == s[a + 1..d][i - a - 1];
    assert forall i :: d < i < |s| ==> s[i] == s[d + 1..][i - d - 1];
    var domain := s[a + 1..];
    assert AllDomain(domain) by {
      forall i | 0 <= i < |domain|
        ensures IsDomainChar(domain[i])
      {
        if a + 1 + i < d {
          assert domain[i] == s[a + 1..d][i];
        } else if a + 1 + i > d {
          assert domain[i] == s[d + 1..][a + i - d];
        }
      }
    }
    assert LastIndexOf(s, '.', |s|) == Some(d);
  }

  /** The deterministic check accepts exactly the strings the regular expression matches. */
  lemma EmailCheckMatchesPattern(s: string)
    ensures IsValidEmail(s) <==> MatchesPattern(s)
  {
    if IsValidEmail(s) {
      ValidEmailMatches(s);
    }
    if MatchesPattern(s) {
      var a: nat, d: nat :| MatchesAt(s, a, d);
      MatchIsValidEmail(s, a, d);
    }
  }

  /** An accepted address contains "@" exactly once, at a position after the start. */
  lemma ValidEmailHasOneAt(s: string)
    requires IsValidEmail(s)
    ensures exists a :: 0 < a < |s| && s[a] == '@'
    ensures forall i, j :: 0 <= i < |s| && 0 <= j < |s| && s[i] == '@' && s[j] == '@' ==> i == j
  {
    var a := FirstIndexOf(s, '@', 0).value;
    assert forall i :: a < i < |s| ==> s[i] == s[a + 1..][i - a - 1];
  }

  /** RegExp.prototype.test coerces an absent value to the text "undefined", which has no "@". */
  lemma UndefinedIsNotAnEmail()
    ensures !IsValidEmail("undefined")
  {
    assert FirstIndexOf("undefined", '@', 0).None?;
  }
}
