/**
 * Concrete accept and reject cases for the validators: boundary cases of
 * each pattern and the end-to-end form scenarios.
 */
module ValidatorExamples {
  import opened Validator

  /** `isSpace` and `isLetter` accept one character only, and `isSpace` no other whitespace. */
  lemma CharacterExamples()
    ensures IsSpace(" ")
    ensures !IsSpace("\t") && !IsSpace("\n") && !IsSpace("\r") && !IsSpace("\U{00A0}")
    ensures !IsSpace("") && !IsSpace("  ")
    ensures IsLetter("a") && IsLetter("Z")
    ensures !IsLetter("") && !IsLetter("ab") && !IsLetter("1") && !IsLetter(" ") && !IsLetter("\U{00E9}")
  {
  }

  /** Any string holding a digit or an ASCII punctuation mark is not a name. */
  lemma {:induction false} NameRejectsDigitOrPunctuation(name: string, k: nat)
    requires k < |name|
    requires '0' <= name[k] <= '9' || name[k] in "!\"#$%&'()*+,-./:;<=>?@[\\]^_`{|}~"
    ensures !ValidateNameWithRegex(name)
  {
    assert !NameClass(name[k]);
  }

  lemma AcceptedNames()
    ensures ValidateNameWithRegex("Jane Doe")
    ensures ValidateNameWithRegex(" ")
  {
  }

  lemma RejectedNames()
    ensures !ValidateNameWithRegex("")
    ensures !ValidateNameWithRegex("Jane123")
    ensures !ValidateNameWithRegex("Jane\tDoe")
  {
    NameRejectsDigitOrPunctuation("Jane123", 4);
    assert !NameClass("Jane\tDoe"[4]);
  }

  /** Any well-formed local part, domain and suffix make an accepted address. */
  lemma AddressAccepted(local: string, domain: string, suffix: string)
    requires LocalPart(local) && DomainPart(domain) && SuffixPart(suffix)
    ensures ValidateEmailWithRegex(Address(local, domain, suffix))
  {
  }

  lemma AcceptedShortEmails()
    ensures ValidateEmailWithRegex("a@b.co")
    ensures ValidateEmailWithRegex("a@b.com")
  {
    AddressAccepted("a", "b", "co");
    assert "a@b.co" == Address("a", "b", "co");
    AddressAccepted("a", "b", "com");
    assert "a@b.com" == Address("a", "b", "com");
  }

  lemma AcceptedJaneEmail()
    ensures ValidateEmailWithRegex("jane@example.com")
  {
    assert DomainPart("example");
    AddressAccepted("jane", "example", "com");
    assert "jane@example.com" == Address("jane", "example", "com");
  }

  lemma AcceptedWorkEmail()
    ensures ValidateEmailWithRegex("jd@work.org")
  {
    AddressAccepted("jd", "work", "org");
    assert "jd@work.org" == Address("jd", "work", "org");
  }

  /** The local part `.+` may itself hold `.` and `@`; the domain may hold digits and `-`. */
  lemma AcceptedUnusualEmails()
    ensures ValidateEmailWithRegex("a.b@c-1.info")
    ensures ValidateEmailWithRegex("a@b@c.com")
  {
    AddressAccepted("a.b", "c-1", "info");
    assert "a.b@c-1.info" == Address("a.b", "c-1", "info");
    AddressAccepted("a@b", "c", "com");
    assert "a@b@c.com" == Address("a@b", "c", "com");
  }

  /** The suffix after the last `.` must have two to four letters. */
  lemma RejectedSuffixes()
    ensures !ValidateEmailWithRegex("a@b.c")
    ensures !ValidateEmailWithRegex("a@b.toolong")
    ensures !ValidateEmailWithRegex("a@b.com extra")
  {
    var e := "a@b.c";
    LastIndexOfIs(e, '.', 3);
    LastIndexOfIs(e[..3], '@', 1);
    assert !SplitsAtLastSeparators(e);
    e := "a@b.toolong";
    LastIndexOfIs(e, '.', 3);
    LastIndexOfIs(e[..3], '@', 1);
    assert !SplitsAtLastSeparators(e);
    e := "a@b.com extra";
    LastIndexOfIs(e, '.', 3);
    LastIndexOfIs(e[..3], '@', 1);
    assert !LetterClass(e[4..][3]);
    assert !SplitsAtLastSeparators(e);
  }

  /** An address needs an `@`, something before it and a line-terminator-free local part. */
  lemma RejectedLocalParts()
    ensures !ValidateEmailWithRegex("noat.com")
    ensures !ValidateEmailWithRegex("@b.com")
    ensures !ValidateEmailWithRegex("a\n@b.com")
    ensures !ValidateEmailWithRegex("")
  {
    var e := "noat.com";
    LastIndexOfIs(e, '.', 4);
    assert LastIndexOf(e[..4], '@') == None;
    e := "@b.com";
    LastIndexOfIs(e, '.', 2);
    LastIndexOfIs(e[..2], '@', 0);
    e := "a\n@b.com";
    LastIndexOfIs(e, '.', 4);
    LastIndexOfIs(e[..4], '@', 2);
    assert !AnyClass(e[..2][1]);
  }

  lemma EmailGroupExamples()
    ensures !AllEmailsValid([])
    ensures AllEmailsValid(["a@b.com"])
    ensures !AllEmailsValid(["a@b.com", "bad"])
  {
    AcceptedShortEmails();
    assert !ValidateEmailWithRegex("bad") by {
      assert LastIndexOf("bad", '.') == None;
    }
    assert ["a@b.com", "bad"][1] == "bad";
  }

  /** A freshly added, still empty email field makes the group invalid. */
  lemma EmptyFieldInvalidatesGroup(emails: seq<string>)
    ensures !AllEmailsValid(emails + [""])
  {
    AllEmailsValidAppend(emails, "");
  }

  /**
   * The verdicts `validate()` computes for the name "Jane Doe" and the
   * emails "jane@example.com" and "jd@work.org": both are true.
   */
  method ValidFormScenario() returns (nameValid: bool, emailsValid: bool)
    ensures nameValid && emailsValid
  {
    AcceptedNames();
    AcceptedJaneEmail();
    AcceptedWorkEmail();
    var emails := ["jane@example.com", "jd@work.org"];
    assert AllEmailsValid(emails) by {
      assert emails[0] == "jane@example.com" && emails[1] == "jd@work.org";
    }
    nameValid := ValidateNameWithRegex("Jane Doe");
    emailsValid := ValidateEmails(emails);
  }

  /** The verdicts for the name "Jane123" and no email field: both are false. */
  method InvalidFormScenario() returns (nameValid: bool, emailsValid: bool)
    ensures !nameValid && !emailsValid
  {
    RejectedNames();
    nameValid := ValidateNameWithRegex("Jane123");
    emailsValid := ValidateEmails([]);
  }
}
