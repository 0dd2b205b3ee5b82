/**
 * The validation predicates of the contact form: a name check and an email
 * check, each as a character loop and as a regular-expression test (the two
 * name checks agree, the email loop is weaker), and the loop that combines
 * the per-field email results.
 *
 * A regular expression is modelled by the language it denotes, not by how
 * a regex engine matches it. All patterns here carry no flags, so `.` does
 * not match a line terminator and `$` matches only at the end of the input.
 */
module Validator {

  datatype Option<T> = None | Some(value: T)

  // ---------------------------------------------------------------------
  // Character classes used by the patterns
  // ---------------------------------------------------------------------

  /** The class `[a-zA-Z]`. */
  predicate LetterClass(ch: char) {
    'a' <= ch <= 'z' || 'A' <= ch <= 'Z'
  }

  /** The class `[a-zA-Z ]` of the name pattern. */
  predicate NameClass(ch: char) {
    LetterClass(ch) || ch == ' '
  }

  /** The class `[a-zA-Z0-9\-]` of the email domain. */
  predicate DomainClass(ch: char) {
    LetterClass(ch) || '0' <= ch <= '9' || ch == '-'
  }

  /** The four line terminators of ECMAScript: LF, CR, LS and PS. */
  predicate IsLineTerminator(ch: char) {
    ch == '\n' || ch == '\r' || ch == '\U{2028}' || ch == '\U{2029}'
  }

  /** The class `.` when the pattern has no `s` flag. */
  predicate AnyClass(ch: char) {
    !IsLineTerminator(ch)
  }

  // ---------------------------------------------------------------------
  // isSpace and isLetter: `/^ $/` and `/^[a-zA-Z]$/` on a string
  // ---------------------------------------------------------------------

  /** `/^ $/.test(c)`: the whole of `c` is one character from the class `[ ]`. */
  predicate IsSpace(c: string) {
    |c| == 1 && c[0] == ' '
  }

  /** `/^[a-zA-Z]$/.test(c)`: the whole of `c` is one character from `[a-zA-Z]`. */
  predicate IsLetter(c: string) {
    |c| == 1 && LetterClass(c[0])
  }

  /** The only string `isSpace` accepts is a single blank. */
  lemma IsSpaceExactlyBlank(c: string)
    ensures IsSpace(c) <==> c == " "
  {
    if IsSpace(c) {
      assert c == [c[0]];
    }
  }

  /** The strings `isLetter` accepts are exactly the one-character strings of an ASCII letter. */
  lemma IsLetterExactly(c: string)
    ensures IsLetter(c) <==> exists ch :: LetterClass(ch) && c == [ch]
  {
    if IsLetter(c) {
      assert c == [c[0]];
    }
  }

  // ---------------------------------------------------------------------
  // Name validation
  // ---------------------------------------------------------------------

  /**
   * `/^[a-zA-Z ]+$/.test(name)`. The body follows the pattern: `X+` is one
   * `X` followed by `X*`; the contract gives the language as a set of strings.
   */
  function ValidateNameWithRegex(name: string): (r: bool)
    ensures r <==> |name| > 0 && forall i :: 0 <= i < |name| ==> NameClass(name[i])
  {
    |name| > 0 && NameClass(name[0]) && (|name| == 1 || ValidateNameWithRegex(name[1..]))
  }

  /**
   * `validateNameWithLoop`: false on the empty string, else a scan that
   * returns false at the first character that is neither a letter nor a
   * space. It agrees with the regex version on every string.
   */
  method ValidateNameWithLoop(name: string) returns (ok: bool)
    ensures ok <==> |name| > 0 && forall i :: 0 <= i < |name| ==> IsLetter([name[i]]) || IsSpace([name[i]])
    ensures ok == ValidateNameWithRegex(name)
  {
    if |name| == 0 {
      return false;
    }
    for i := 0 to |name|
      invariant forall k :: 0 <= k < i ==> IsLetter([name[k]]) || IsSpace([name[k]])
    {
      var currLetter := [name[i]];
      if !IsLetter(currLetter) && !IsSpace(currLetter) {
        return false;
      }
    }
    return true;
  }

  // ---------------------------------------------------------------------
  // Email validation with the regular expression
  // `/^.+@[a-zA-Z0-9\-]+\.[a-zA-Z]{2,4}$/`
  // ---------------------------------------------------------------------

  /** The string `local@domain.suffix`. */
  function Address(local: string, domain: string, suffix: string): string {
    local + "@" + domain + "." + suffix
  }

  /** `.+` */
  predicate LocalPart(local: string) {
    |local| > 0 && forall i :: 0 <= i < |local| ==> AnyClass(local[i])
  }

  /** `[a-zA-Z0-9\-]+` */
  predicate DomainPart(domain: string) {
    |domain| > 0 && forall i :: 0 <= i < |domain| ==> DomainClass(domain[i])
  }

  /** `[a-zA-Z]{2,4}` */
  predicate SuffixPart(suffix: string) {
    2 <= |suffix| <= 4 && forall i :: 0 <= i < |suffix| ==> LetterClass(suffix[i])
  }

  /** The language of the email pattern: the whole string splits into the three parts. */
  ghost predicate EmailPattern(email: string) {
    exists local, domain, suffix ::
      email == Address(local, domain, suffix) &&
      LocalPart(local) && DomainPart(domain) && SuffixPart(suffix)
  }

  /** The index of the last occurrence of `c` in `s`, if any. */
  function LastIndexOf(s: string, c: char): (r: Option<nat>)
    ensures r.None? <==> forall k :: 0 <= k < |s| ==> s[k] != c
    ensures r.Some? ==> r.value < |s| && s[r.value] == c && forall k :: r.value < k < |s| ==> s[k] != c
  {
    if |s| == 0 then None
    else if s[|s| - 1] == c then Some(|s| - 1)
    else LastIndexOf(s[..|s| - 1], c)
  }

  lemma LastIndexOfIs(s: string, c: char, k: nat)
    requires k < |s| && s[k] == c
    requires forall m :: k < m < |s| ==> s[m] != c
    ensures LastIndexOf(s, c) == Some(k)
  {
  }

  /** Cutting a string at an `@` and a later `.` and putting it back together gives the string. */
  lemma SplitReassembles(s: string, i: nat, j: nat)
    requires i < j < |s| && s[i] == '@' && s[j] == '.'
    ensures s == Address(s[..i], s[i + 1..j], s[j + 1..])
  {
    assert s == s[..i] + [s[i]] + s[i + 1..j] + [s[j]] + s[j + 1..];
  }

  /** Where the separators and the three parts sit in `local@domain.suffix`. */
  lemma AddressLayout(local: string, domain: string, suffix: string)
    ensures var email, j := Address(local, domain, suffix), |local| + 1 + |domain|;
      |email| == j + 1 + |suffix| && email[|local|] == '@' && email[j] == '.' &&
      email[..j] == local + "@" + domain &&
      email[..|local|] == local && email[|local| + 1..j] == domain && email[j + 1..] == suffix
  {
    var email, j := Address(local, domain, suffix), |local| + 1 + |domain|;
    assert email == (local + "@" + domain) + ("." + suffix);
    assert email[..j] == local + "@" + domain;
    assert email[j + 1..] == suffix;
    assert email[..|local|] == local;
    assert email[|local| + 1..j] == domain;
  }

  /**
   * In a matching address the split is forced: the `.` before the suffix is
   * the last `.` of the string, and the `@` is the last `@` before it,
   * because neither the domain nor the suffix may contain either symbol.
   */
  lemma {:induction false} SplitIsForced(local: string, domain: string, suffix: string)
    requires DomainPart(domain) && SuffixPart(suffix)
    ensures var email, j := Address(local, domain, suffix), |local| + 1 + |domain|;
      LastIndexOf(email, '.') == Some(j) &&
      LastIndexOf(email[..j], '@') == Some(|local|)
  {
    var email, j := Address(local, domain, suffix), |local| + 1 + |domain|;
    AddressLayout(local, domain, suffix);
    forall m | j < m < |email|
      ensures email[m] != '.'
    {
      assert email[m] == email[j + 1..][m - j - 1] == suffix[m - j - 1];
    }
    LastIndexOfIs(email, '.', j);
    var front := email[..j];
    forall m | |local| < m < |front|
      ensures front[m] != '@'
    {
      assert front[m] == domain[m - |local| - 1];
    }
    LastIndexOfIs(front, '@', |local|);
  }

  /**
   * The cut at the last `.` and at the last `@` before it yields a local
   * part, a domain and a suffix.
   */
  predicate SplitsAtLastSeparators(email: string) {
    var dot := LastIndexOf(email, '.');
    dot.Some? &&
    var at := LastIndexOf(email[..dot.value], '@');
    at.Some? &&
    LocalPart(email[..at.value]) && DomainPart(email[at.value + 1..dot.value]) && SuffixPart(email[dot.value + 1..])
  }

  /** A matching address is cut correctly at its last separators. */
  lemma {:induction false} PatternSplitsAtLastSeparators(email: string)
    requires EmailPattern(email)
    ensures SplitsAtLastSeparators(email)
  {
    var local, domain, suffix :|
      email == Address(local, domain, suffix) &&
      LocalPart(local) && DomainPart(domain) && SuffixPart(suffix);
    SplitIsForced(local, domain, suffix);
    AddressLayout(local, domain, suffix);
  }

  /** A successful cut at the last separators is a witness for the pattern. */
  lemma {:induction false} LastSeparatorsGivePattern(email: string)
    requires SplitsAtLastSeparators(email)
    ensures EmailPattern(email)
  {
    var j := LastIndexOf(email, '.').value;
    var i := LastIndexOf(email[..j], '@').value;
    SplitReassembles(email, i, j);
    var local, domain, suffix := email[..i], email[i + 1..j], email[j + 1..];
    assert email == Address(local, domain, suffix) &&
      LocalPart(local) && DomainPart(domain) && SuffixPart(suffix);
  }

  /** The pattern holds exactly when the cut at the last separators succeeds. */
  lemma {:induction false} PatternIffSplitsAtLastSeparators(email: string)
    ensures EmailPattern(email) <==> SplitsAtLastSeparators(email)
  {
    if EmailPattern(email) {
      PatternSplitsAtLastSeparators(email);
    }
    if SplitsAtLastSeparators(email) {
      LastSeparatorsGivePattern(email);
    }
  }

  /**
   * `validateEmailWithRegex`, computed by cutting the string at its last `.`
   * and at the last `@` before it; the contract says this decides the
   * pattern's language exactly.
   */
  function ValidateEmailWithRegex(email: string): (r: bool)
    ensures r <==> EmailPattern(email)
  {
    PatternIffSplitsAtLastSeparators(email);
    SplitsAtLastSeparators(email)
  }

  // ---------------------------------------------------------------------
  // Email validation with the loop
  // ---------------------------------------------------------------------

  /** Some `@` is followed, somewhere later, by a `.`. */
  predicate AtBeforeDot(email: string) {
    exists i, j :: 0 <= i < j < |email| && email[i] == '@' && email[j] == '.'
  }

  /**
   * `validateEmailWithLoop`: a scan with two flags that stops as soon as a
   * `.` has been seen after an `@`.
   */
  method ValidateEmailWithLoop(email: string) returns (ok: bool)
    ensures ok <==> AtBeforeDot(email)
  {
    var hasAnAt := false;
    var hasADotFollowingAt := false;
    var i := 0;
    while !hasADotFollowingAt && i < |email|
      invariant 0 <= i <= |email|
      invariant hasAnAt <==> exists k :: 0 <= k < i && email[k] == '@'
      invariant hasADotFollowingAt <==> exists k, m :: 0 <= k < m < i && email[k] == '@' && email[m] == '.'
    {
      var currChar := email[i];
      if currChar == '@' {
        hasAnAt := true;
      } else if hasAnAt && currChar == '.' {
        hasADotFollowingAt := true;
      }
      i := i + 1;
    }
    return hasADotFollowingAt;
  }

  /** Every string the regex accepts also passes the loop check. */
  lemma {:induction false} RegexImpliesLoop(email: string)
    requires ValidateEmailWithRegex(email)
    ensures AtBeforeDot(email)
  {
    var local, domain, suffix :|
      email == Address(local, domain, suffix) &&
      LocalPart(local) && DomainPart(domain) && SuffixPart(suffix);
    assert email[|local|] == '@';
    assert email[|local| + 1 + |domain|] == '.';
  }

  /** The converse fails: `"@."` passes the loop check but not the regex. */
  lemma LoopDoesNotImplyRegex()
    ensures AtBeforeDot("@.") && !ValidateEmailWithRegex("@.")
  {
    assert "@."[0] == '@' && "@."[1] == '.';
    LastIndexOfIs("@.", '.', 1);
    assert "@."[..1] == "@";
    LastIndexOfIs("@", '@', 0);
  }

  // ---------------------------------------------------------------------
  // Aggregation over the email fields
  // ---------------------------------------------------------------------

  /** The email group is valid when it has at least one field and every field matches. */
  predicate AllEmailsValid(emails: seq<string>) {
    |emails| > 0 && forall k :: 0 <= k < |emails| ==> ValidateEmailWithRegex(emails[k])
  }

  /**
   * `validateEmails`, with the values of the input elements given as a
   * sequence: false when there is none, false at the first value the regex
   * rejects, true otherwise.
   */
  method ValidateEmails(emails: seq<string>) returns (ok: bool)
    ensures |emails| == 0 ==> !ok
    ensures (exists k :: 0 <= k < |emails| && !ValidateEmailWithRegex(emails[k])) ==> !ok
    ensures ok <==> AllEmailsValid(emails)
  {
    if |emails| == 0 {
      return false;
    }
    for i := 0 to |emails|
      invariant forall k :: 0 <= k < i ==> ValidateEmailWithRegex(emails[k])
    {
      var currEmail := emails[i];
      if !ValidateEmailWithRegex(currEmail) {
        return false;
      }
    }
    return true;
  }

  /** Adding one more field keeps the group valid exactly when the new value is valid. */
  lemma {:induction false} AllEmailsValidAppend(emails: seq<string>, email: string)
    ensures AllEmailsValid(emails + [email]) <==>
      (|emails| == 0 || AllEmailsValid(emails)) && ValidateEmailWithRegex(email)
  {
    var more := emails + [email];
    assert more[|emails|] == email;
    if (|emails| == 0 || AllEmailsValid(emails)) && ValidateEmailWithRegex(email) {
      forall k | 0 <= k < |more|
        ensures ValidateEmailWithRegex(more[k])
      {
        if k < |emails| {
          assert more[k] == emails[k];
        }
      }
    }
    if AllEmailsValid(more) {
      forall k | 0 <= k < |emails|
        ensures ValidateEmailWithRegex(emails[k])
      {
        assert more[k] == emails[k];
      }
    }
  }

  /** The verdict depends only on which values are present, not on the order of the fields. */
  lemma {:induction false} AllEmailsValidIgnoresOrder(emails: seq<string>, others: seq<string>)
    requires multiset(emails) == multiset(others)
    ensures AllEmailsValid(emails) == AllEmailsValid(others)
  {
    assert |emails| == |multiset(emails)| == |others|;
    if AllEmailsValid(emails) {
      forall k | 0 <= k < |others|
        ensures ValidateEmailWithRegex(others[k])
      {
        assert others[k] in multiset(emails);
        var m :| 0 <= m < |emails| && emails[m] == others[k];
      }
    }
    if AllEmailsValid(others) {
      forall k | 0 <= k < |emails|
        ensures ValidateEmailWithRegex(emails[k])
      {
        assert emails[k] in multiset(others);
        var m :| 0 <= m < |others| && others[m] == emails[k];
      }
    }
  }
}
