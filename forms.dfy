/** Form validation: the registration password check, the field limits of
    the book and issue forms, the bounds on renewal days, and the choices the
    return and renew forms offer. */
module Forms {
  import opened Models

  const RegistrationNoMaxLength := 30
  const IsbnMaxLength := 13
  const TitleMaxLength := 200
  const AuthorNameMaxLength := 100
  const BookTypeMaxLength := 50
  /** The range of the quantity column: SQLite stores 64-bit integers, and the
      model form validates the value against that range. */
  const QuantityMin := -0x8000_0000_0000_0000
  const QuantityMax := 0x7FFF_FFFF_FFFF_FFFF
  const MinRenewalDays := 1
  const MaxRenewalDays := 30

  /** A cleaned field counts as given when it is present and not empty. */
  predicate Given(field: Option<string>)
  {
    field.Some? && field.value != ""
  }

  /** The registration form's clean step: it raises exactly when both
      passwords were given and they differ. */
  predicate PasswordsMismatch(password: Option<string>, confirmPassword: Option<string>)
  {
    Given(password) && Given(confirmPassword) && password.value != confirmPassword.value
  }

  /** Equal passwords are never refused, the check does not depend on which
      field holds which, and a missing password is left to the required-field check. */
  lemma PasswordCheck(password: Option<string>, confirmPassword: Option<string>)
    ensures password == confirmPassword ==> !PasswordsMismatch(password, confirmPassword)
    ensures PasswordsMismatch(password, confirmPassword) == PasswordsMismatch(confirmPassword, password)
    ensures !Given(password) || !Given(confirmPassword) ==> !PasswordsMismatch(password, confirmPassword)
    ensures Given(password) && Given(confirmPassword) && !PasswordsMismatch(password, confirmPassword)
            ==> password == confirmPassword
  {
  }

  /** A required character field with a maximum length. */
  predicate FieldValid(value: string, maxLength: nat)
  {
    0 < |value| <= maxLength
  }

  /** The issue form: registration number and ISBN are required and capped;
      the due date is always a date. */
  predicate IssueFormValid(registrationNo: string, isbn: string)
  {
    FieldValid(registrationNo, RegistrationNoMaxLength) && FieldValid(isbn, IsbnMaxLength)
  }

  /** The book form, with the column limits of the book record. */
  predicate BookFormValid(title: string, authorName: string, isbn: string, bookType: string, quantity: int)
  {
    && FieldValid(title, TitleMaxLength)
    && FieldValid(authorName, AuthorNameMaxLength)
    && FieldValid(isbn, IsbnMaxLength)
    && FieldValid(bookType, BookTypeMaxLength)
    && QuantityMin <= quantity <= QuantityMax
  }

  /** The renewal period: between 1 and 30 days inclusive (the form proposes 7). */
  predicate RenewalDaysValid(days: int)
  {
    MinRenewalDays <= days <= MaxRenewalDays
  }

  /** The renew form offers an unreturned issue whose due date is not before
      `formLoadDay`: the date taken once, when the form class was loaded. */
  predicate RenewChoice(issue: Issue, formLoadDay: Day)
  {
    !issue.isReturned && issue.dueDate >= formLoadDay
  }

  /** Because the date is fixed at load time, the form can offer an issue that
      has since become overdue and carries a fine. */
  lemma StaleRenewChoice(formLoadDay: Day, today: Day)
    requires formLoadDay < today
    ensures exists issue :: RenewChoice(issue, formLoadDay) && Fine(issue, today) > 0
  {
    var issue := Issue(0, 0, formLoadDay, formLoadDay, false, None);
    assert RenewChoice(issue, formLoadDay) && Fine(issue, today) > 0;
  }

  /** The return form offers the issue with id `k`. */
  predicate Returnable(issues: map<nat, Issue>, n: nat, k: nat)
  {
    k < n && k in issues && !issues[k].isReturned
  }

  /** Every id in `s` is a row of the table. */
  predicate AllIn(issues: map<nat, Issue>, s: seq<nat>)
  {
    forall i :: 0 <= i < |s| ==> s[i] in issues
  }

  /** The ids in `s` are ordered by issue date. */
  predicate SortedByIssueDate(issues: map<nat, Issue>, s: seq<nat>)
    requires AllIn(issues, s)
  {
    forall i, j :: 0 <= i < j < |s| ==> issues[s[i]].issueDate <= issues[s[j]].issueDate
  }

  /** Puts id `k` into an issue-date ordered list, after the ids of equal date. */
  function InsertByIssueDate(issues: map<nat, Issue>, s: seq<nat>, k: nat): (r: seq<nat>)
    requires k in issues && AllIn(issues, s) && SortedByIssueDate(issues, s)
    ensures AllIn(issues, r) && SortedByIssueDate(issues, r)
    ensures multiset(r) == multiset(s) + multiset{k}
    ensures |r| == |s| + 1 && (r[0] == k || (|s| > 0 && r[0] == s[0]))
  {
    if s == [] then [k]
    else if issues[k].issueDate < issues[s[0]].issueDate then [k] + s
    else
      var rest := InsertByIssueDate(issues, s[1..], k);
      assert s == [s[0]] + s[1..];
      assert issues[s[0]].issueDate <= issues[rest[0]].issueDate;
      [s[0]] + rest
  }

  /** The choices of the return form: the unreturned issues with an id below
      `n`, each exactly once, ordered by issue date. */
  function ReturnChoices(issues: map<nat, Issue>, n: nat): (choices: seq<nat>)
    ensures AllIn(issues, choices) && SortedByIssueDate(issues, choices)
    ensures forall k :: multiset(choices)[k] == (if Returnable(issues, n, k) then 1 else 0)
  {
    if n == 0 then []
    else
      var earlier := ReturnChoices(issues, n - 1);
      if n - 1 in issues && !issues[n - 1].isReturned then
        InsertByIssueDate(issues, earlier, n - 1)
      else earlier
  }
}
