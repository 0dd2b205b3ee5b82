# Contact-form validators in Dafny

This project models the validation logic of a small browser contact form
(`solution/app.js`). The form has one name field and a growable group of
email fields. The logic decides three things:

- whether the name is well formed: one or more ASCII letters or blanks;
- whether one email is well formed: `local@domain.suffix` in the shape of
  the regular expression `^.+@[a-zA-Z0-9\-]+\.[a-zA-Z]{2,4}$`;
- whether the email group as a whole is valid: at least one field, and every
  field well formed.

The name check and the single-email check each exist as a character loop
and as a regular-expression test. The two name checks agree; the email loop
is weaker than the email regex. The group check `validateEmails` exists only
as a loop. Each regular-expression test is a function that denotes the
pattern's language. Each loop is a method with loop invariants, proved
against that language or against a predicate that states what the loop
decides:

- `Validator.ValidateNameWithLoop` is proved equal to
  `Validator.ValidateNameWithRegex` on every string.
- `Validator.ValidateEmailWithLoop` decides `AtBeforeDot` ("some `@` is
  followed later by a `.`"). The regex check refines it. The converse fails;
  `"@."` is the counterexample.
- `Validator.ValidateEmailWithRegex` is an executable check. It cuts the
  string at its last `.` and at the last `@` before that. Its contract says
  this decides exactly the existential split predicate `EmailPattern`.
- `Validator.ValidateEmails` takes the values of the input elements as a
  `seq<string>` and is proved to decide `AllEmailsValid`.

The patterns carry no flags. So `.` matches any character except the four
ECMAScript line terminators (LF, CR, U+2028, U+2029), and `$` matches only
at the very end of the input. `IsLetter` and `IsSpace` take a whole string,
as `isLetter(c)` and `isSpace(c)` do. They accept only one-character
strings, and the loop passes them `[name[i]]`, the one-character string that
`name[i]` gives in JavaScript.

`validator.dfy` holds the model. `examples.dfy` holds concrete accept and
reject cases and two methods that compute the two verdicts of `validate()`
for the form scenarios: `ValidFormScenario` ("Jane Doe" with two good
emails) and `InvalidFormScenario` ("Jane123" with no email field).

The doc comment of `validateEmailWithRegex` (solution/app.js:116) says the
address "begins with 1+ characters". The pattern's `.` excludes line
terminators, so `"a\n@b.com"` is rejected, and the model follows the
pattern.

## Model

| member | source | states |
|---|---|---|
| `Validator.IsSpace` | solution/app.js:127-134 | `/^ $/.test(c)`: the whole string is one blank; its all-inputs characterization is `IsSpaceExactlyBlank` |
| `Validator.IsLetter` | solution/app.js:136-143 | `/^[a-zA-Z]$/.test(c)`: the whole string is one character of `[a-zA-Z]`; its all-inputs characterization is `IsLetterExactly` |
| `Validator.IsLetterExactly` | solution/app.js:136-143 | `isLetter` accepts exactly the strings `[ch]` for an ASCII letter `ch`; longer, shorter and non-letter strings are rejected |
| `Validator.IsSpaceExactlyBlank` | solution/app.js:127-134 | `isSpace` accepts exactly the one-character string `" "`; every other string is rejected, including tabs, newlines, two blanks and the empty string |
| `Validator.ValidateNameWithRegex` | solution/app.js:62-69 | the pattern `^[a-zA-Z ]+$` is built as one class character followed by the rest; it accepts exactly the non-empty strings whose every character is an ASCII letter or a blank |
| `Validator.ValidateNameWithLoop` | solution/app.js:43-60 | false on the empty string; otherwise true iff every character passes `isLetter` or `isSpace`; and the verdict equals `ValidateNameWithRegex` on every string |
| `Validator.AddressLayout` | solution/app.js:122-124 | in `local@domain.suffix` the `@` sits right after the local part, the `.` right after the domain, and cutting at those two places gives back the three parts |
| `Validator.SplitIsForced` | solution/app.js:122-124 | with a valid domain and suffix, the `.` before the suffix is the last `.` of the string and the `@` is the last `@` before it |
| `Validator.PatternSplitsAtLastSeparators` | solution/app.js:122-124 | every string in the email pattern's language passes the cut at its last `.` and the last `@` before it |
| `Validator.LastSeparatorsGivePattern` | solution/app.js:122-124 | every string that passes the cut at its last separators is in the email pattern's language |
| `Validator.PatternIffSplitsAtLastSeparators` | solution/app.js:122-124 | the executable cut and the existential pattern agree on every string |
| `Validator.ValidateEmailWithRegex` | solution/app.js:115-124 | true iff the whole string is `p@d.t`: `p` non-empty with no line terminator, `d` non-empty over `[A-Za-z0-9-]`, `t` two to four ASCII letters, nothing before or after |
| `Validator.ValidateEmailWithLoop` | solution/app.js:92-113 | the flag scan returns true iff some index `i < j` has `@` at `i` and `.` at `j` |
| `Validator.RegexImpliesLoop` | solution/app.js:99-124 | every email the regex accepts also passes the loop check |
| `Validator.LoopDoesNotImplyRegex` | solution/app.js:99-124 | `"@."` passes the loop check but the regex rejects it, so the loop check is strictly weaker |
| `Validator.ValidateEmails` | solution/app.js:71-90 | false with no field; false if any field fails the regex; true iff there is at least one field and every field passes the regex |
| `Validator.AllEmailsValidAppend` | solution/app.js:71-90 | adding a field to the group gives a valid group iff the old group is empty or valid and the new value is valid |
| `Validator.AllEmailsValidIgnoresOrder` | solution/app.js:71-90 | the group verdict depends only on the multiset of values, not on the order of the fields |
| `ValidatorExamples.CharacterExamples` | solution/app.js:127-143 | `isSpace` rejects tab, LF, CR, no-break space, `""` and two blanks; `isLetter` accepts `"a"` and `"Z"` and rejects `""`, `"ab"`, `"1"`, `" "` and `"é"` |
| `ValidatorExamples.NameRejectsDigitOrPunctuation` | solution/app.js:62-69 | a string holding a digit or ASCII punctuation mark anywhere is not a valid name |
| `ValidatorExamples.AcceptedNames` | solution/app.js:62-69 | `"Jane Doe"` and `" "` are valid names |
| `ValidatorExamples.RejectedNames` | solution/app.js:62-69 | `""`, `"Jane123"` and `"Jane\tDoe"` are not valid names |
| `ValidatorExamples.AddressAccepted` | solution/app.js:122-124 | any valid local part, domain and suffix joined by `@` and `.` form an accepted email |
| `ValidatorExamples.AcceptedShortEmails` | solution/app.js:122-124 | `"a@b.co"` and `"a@b.com"` are accepted |
| `ValidatorExamples.AcceptedJaneEmail` | solution/app.js:122-124 | `"jane@example.com"` is accepted |
| `ValidatorExamples.AcceptedWorkEmail` | solution/app.js:122-124 | `"jd@work.org"` is accepted |
| `ValidatorExamples.AcceptedUnusualEmails` | solution/app.js:122-124 | the local part may contain `.` and `@` and the domain may contain digits and `-`: `"a.b@c-1.info"` and `"a@b@c.com"` are accepted |
| `ValidatorExamples.RejectedSuffixes` | solution/app.js:122-124 | the suffix must be two to four letters and end the string: `"a@b.c"`, `"a@b.toolong"` and `"a@b.com extra"` are rejected |
| `ValidatorExamples.RejectedLocalParts` | solution/app.js:122-124 | `"noat.com"` (no `@`), `"@b.com"` (empty local part), `"a\n@b.com"` (line terminator) and `""` are rejected |
| `ValidatorExamples.EmailGroupExamples` | solution/app.js:71-90 | `[]` is invalid, `["a@b.com"]` is valid, `["a@b.com", "bad"]` is invalid |
| `ValidatorExamples.ValidFormScenario` | solution/app.js:20-41 | for the name "Jane Doe" and the emails "jane@example.com" and "jd@work.org", both verdicts `validate()` computes are true |
| `ValidatorExamples.InvalidFormScenario` | solution/app.js:20-41 | for the name "Jane123" and no email field, both verdicts are false |
| `ValidatorExamples.EmptyFieldInvalidatesGroup` | solution/app.js:71-90 | a group with a new, still empty field (as the "Add Email" button appends) is invalid whatever the other fields hold |

## Left out

- `addEmailToDOM` and `validate` (solution/app.js:5-41): DOM element creation, lookup and the writing of error text and style classes. They hold no decision beyond calling the predicates; the two verdicts `validate()` computes are replayed by `ValidFormScenario` and `InvalidFormScenario`.
- `validateEmails` reads its values from the DOM (`getElementsByTagName("input")`); the model takes those values as a `seq<string>` parameter.
- starter/app.js: unfinished scaffolding whose `validateName` and `validateEmail` always return false and whose `validateEmails` checks only the first field. Its `isSpace` and `isLetter` are the same as the solution's.
- The JavaScript regular-expression engine (backtracking, the `lastIndex` state of global patterns). The model states the language each pattern denotes.
- UTF-16: a JavaScript string is a sequence of UTF-16 code units, while a Dafny `string` is a sequence of Unicode scalar values. Surrogate pairs are not modelled.
- ValidateNameWithLoop: the contract gives the verdict, not the position of the first bad character at which the scan returns.
- ValidateEmailWithLoop: the contract gives the verdict, not the fact that the scan stops at the first `.` after an `@`; that stop is kept in the loop guard.
