# Library store: a Dafny model

This project models the domain core of a small Django library application.
The store holds books with copy counts, student profiles, issue records (loans)
and borrow requests. The request handlers lend, return, renew, approve and
reject, and they keep the availability counts through `Book.save`. The model
also covers the fine and due-date arithmetic of an issue, the form checks the
handlers rely on, and the totals of the dashboard and the report.

- `models.dfy` (module `Models`) holds the records and their logic.
  - `Book.save` is the method `SaveBook`, specified by the function `AdjustedCopies`.
  - `Issue.get_fine` is `Fine`; `Issue.days_until_due` is `DaysUntilDue`.
  - The status choices of a borrow request are `StatusCode`/`ParseStatus`.
- `forms.dfy` (module `Forms`) covers form validation:
  - the registration password check;
  - the field limits of the book and issue forms;
  - the 1..30 renewal days;
  - the choices the return and renew forms offer.
- `queries.dfy` (module `Queries`) defines tables as maps from row id to
  record. A `filter(...).count()` is `CountWhere` and a sum is `SumWhere`,
  both over the ids below the table's next id. Their frame lemmas are here.
- `stock.dfy` (module `Stock`) holds the per-book stock balance and the
  lemmas showing that each kind of update preserves it.
- `views.dfy` (module `Views`) holds the roles and the store.
  - The store is the class `Library`, and the handlers are its methods.
  - The admin dashboard, the student dashboard and the report are its functions.
  - `Consistent` is the store invariant: references resolve, ISBNs and
    registration numbers are unique, ids lie below the next ids, and the
    copies balance. One lemma per kind of update preserves it.

Modelling choices:
- Dates are day numbers, so a difference in days is a subtraction.
- The current date `today` is a parameter of every operation that reads the clock.
- The renew form fixes its date when its class is loaded. That date is the
  constant `renewFormDay` of the store.
- Each handler returns an `Outcome`: `Done`, `Refused(reason)` or, for an
  approval of a book that is out of stock, `RejectedOutOfStock`.
  - A failing role check (`user_passes_test`) is `Refused(NotAuthorized)`.
  - An invalid form is `Refused(InvalidForm)`.
  - A failed `get_object_or_404` is `Refused(NotFound)`.
  - Every refusal leaves the store unchanged.
  - On `Done`, the method's contract states the whole new store.

Stock balance (`Stock.Balanced`):
- For each book, available copies plus copies out on loan are **at least**
  its quantity.
- For each book, they are **exactly** its quantity unless an edit clamped the
  availability at 0. Such books are kept in the ghost set `clamped`.
- A negative availability occurs only on a book created with a negative
  quantity, and such a book has nothing out on loan.

Bounds on the stock:
- A book no edit has clamped, with a quantity that is not negative, keeps
  `0 ≤ available_copies ≤ quantity` through any sequence of issues, returns,
  approvals and renewals. `Stock.WithinQuantity` states this.
- `available_copies ≤ quantity` is not kept after a clamping edit. A quantity
  edit below the number of copies out is clamped at 0
  (`library/models.py:35-36`), and the returns that follow can raise the
  availability above the quantity. `Stock.ClampLeavesSurplus` states this.
- The quantity may be negative: the book form accepts any value in the
  column's 64-bit range. A book created with a negative quantity has a
  negative availability.
- No one-active-issue-per-student-and-book property holds.
  `issue_book` and `approve_borrow_request` do not check it; only
  `borrow_request` does.

## Model

| member | source | states |
|---|---|---|
| Models.StatusCode | library/models.py:83-89 | a status is stored as a non-empty code that fits the 10-character column |
| Models.ParseStatus | library/models.py:83-89 | a stored code reads back as a status only when it is one of the four choices, and then it is that status's code |
| Models.StatusRoundTrip | library/models.py:83-89 | every status reads back as itself from its stored code |
| Models.AdjustedCopies | library/models.py:28-37 | a new book gets exactly its quantity; for an edited book the result is never negative, is at least the old availability shifted by the quantity change, and is that shifted value whenever it is not 0 |
| Models.SaveBook | library/models.py:28-37 | the saved book is the given one with only its availability replaced by the adjusted value |
| Models.NewBookAllAvailable | library/models.py:29-30 | a new book's availability is its quantity, whatever value was supplied |
| Models.SaveKeepsCopies | library/models.py:31-36 | saving with an unchanged quantity keeps a non-negative availability as it is (the handlers save after +1 or -1) |
| Models.Fine | library/models.py:51-64 | a fine is never negative and is a whole number of days at 10 per day |
| Models.NoFineWhenNotLate | library/models.py:54-64 | no fine for an unreturned issue not yet due, a return on or before the due date, or a returned issue without a return date |
| Models.LateReturnFine | library/models.py:51-58 | a late return owes 10 per day between due date and return date, whatever the current date |
| Models.OverdueFineGrows | library/models.py:53-64 | an overdue unreturned issue owes 10 per day past due; for any issue the fine never falls as the days go by, and a returned issue's fine no longer changes |
| Models.DaysUntilDue | library/models.py:66-72 | 0 once returned; otherwise the due date is today plus the result, which is negative when overdue |
| Models.FineFromDaysUntilDue | library/models.py:53-72 | an unreturned issue owes a fine exactly when its days until due are negative, and then 10 per day behind |
| Models.ReturnKeepsFine | library/models.py:53-64 | marking an issue returned today does not change the fine it owes today |
| Forms.PasswordsMismatch | library/forms.py:19-27 | the registration form's clean step raises exactly when both passwords were given (present and non-empty) and they differ |
| Forms.IssueFormValid | library/forms.py:58-71 | the issue form needs a registration number of 1..30 characters and an ISBN of 1..13; the due date is a date |
| Forms.BookFormValid | library/forms.py:45-55 | the book form needs title, author, ISBN and type within the column limits of library/models.py:21-24, and a quantity within the 64-bit integer column range |
| Forms.RenewalDaysValid | library/forms.py:100-104 | a renewal period is accepted exactly when it lies in 1..30 days |
| Forms.RenewChoice | library/forms.py:93-94 | the renew form offers an unreturned issue whose due date is not before the date fixed when the form was loaded |
| Forms.Returnable | library/forms.py:74-76 | the return form accepts a stored unreturned issue |
| Forms.PasswordCheck | library/forms.py:19-27 | the check fails exactly when both passwords are given and differ; equal or missing passwords pass, and swapping the fields changes nothing |
| Forms.StaleRenewChoice | library/forms.py:93-94 | because the renew form's date is fixed when the form is loaded, the form can offer an issue that is already overdue and owes a fine |
| Forms.InsertByIssueDate | library/forms.py:76 | inserting an issue into an issue-date ordered list keeps it ordered and adds exactly that issue |
| Forms.ReturnChoices | library/forms.py:74-80 | the return form offers every unreturned issue exactly once and nothing else, ordered by issue date |
| Stock.BalancedAfterAdd | library/models.py:29-30 | adding a book with all copies available keeps every book's balance |
| Stock.BalancedAfterLoan | library/views.py:229-233 | a new unreturned issue together with one copy fewer keeps the balance |
| Stock.BalancedAfterReturn | library/views.py:255-261 | an issue still out proves its book's availability is not negative, and returning it with the copy given back keeps the balance |
| Stock.BalancedAfterIssueChange | library/views.py:495-496 | moving a due date keeps the balance |
| Stock.BalancedAfterEdit | library/models.py:31-36 | an edit keeps the exact balance unless the clamp fires; if it fires, the book is recorded as clamped and keeps "at least" |
| Stock.Balanced | library/models.py:28-37 | for every book, available plus out on loan are at least its quantity, exactly its quantity unless an edit clamped it, and a negative availability has nothing out |
| Stock.WithinQuantity | library/views.py:229-261 | a book no edit has clamped, with a non-negative quantity, has between 0 and its quantity copies available, the rest out on loan |
| Stock.ClampLeavesSurplus | library/models.py:35-36 | when the clamp fires on a balanced book, available plus out on loan exceeds the new quantity |
| Stock.BalancedAfterDelete | library/views.py:191 | deleting a book together with its issues keeps every other book's balance |
| Queries.RowsWhere | library/models.py:44-45 | a cascading delete keeps exactly the rows that do not refer to the deleted record, each unchanged (used for issues and for requests) |
| Queries.CountWhere | library/views.py:92-94 | a filtered count over the stored rows, never more than the number of ids handed out |
| Queries.SumWhere | library/views.py:423 | a filtered sum over the stored rows (the fines of the report; the admin dashboard sums quantities the same way) |
| Queries.CountAfterInsert | library/views.py:229 | creating a row at the next id adds one to every count whose filter it passes |
| Queries.CountAfterUpdate | library/views.py:255-257 | changing one row moves it between counts and leaves the rest alone |
| Queries.SumIgnoresZeros | library/views.py:423 | widening a sum by rows that contribute 0 does not change it |
| Queries.SumAtLeast | library/views.py:423 | a sum over rows that each contribute at least c is at least c times their count |
| Views.IsAdmin | library/views.py:20-21 | an admin is a user with both the staff and the superuser flag |
| Views.IsStudent | library/views.py:23-24 | a student is a user with a profile and without the staff flag |
| Views.RolesExclusive | library/views.py:20-24 | no user is both admin and student; an admin is staff, and a student is not staff and has a profile |
| Views.FindStudent | library/views.py:213-216 | the student with a registration number, or none when no student has it |
| Views.FindBook | library/views.py:219-222 | the book with an ISBN, or none when no book has it |
| Views.ProfileOf | library/views.py:23-24 | a login's profile exists exactly when the login has one |
| Views.FindStudentUnique | library/models.py:9 | with unique registration numbers, the lookup returns the one holder |
| Views.FindBookUnique | library/models.py:23 | with unique ISBNs, the lookup returns the one holder |
| Views.ProfileUnique | library/models.py:7 | a login has at most one profile, so the lookup returns it |
| Views.LatestOpenRequest | library/views.py:263-267 | the open (Pending or Approved) request of that student for that book with the latest date; none exactly when there is no open request |
| Views.RenewedDueDate | library/views.py:492-493 | the new due date is the renewal period after the later of the due date and today |
| Views.RenewalExtends | library/views.py:492-493 | a renewal of 1..30 days always moves the due date strictly later |
| Views.ReturnChoicesCount | library/views.py:92 | the number of issued books counted on the dashboard equals the number of choices the return form offers |
| Views.OverdueFines | library/views.py:417-423 | every overdue issue owes at least one day's fine, and an unreturned issue that is not overdue owes nothing |
| Views.NoFineMeansNotOverdue | library/views.py:487-493 | an unreturned issue without a fine is not yet past its due date, so renewing it counts from the due date |
| Views.Consistent | library/models.py:6-89 | the store invariant: issues and requests refer to stored books and students, a return date exactly on returned issues, unique ISBNs, registration numbers and profile links, ids below the next ids, and the stock balance |
| Views.ConsistentAfterAdd | library/views.py:152-160 | adding a book with an unused ISBN keeps the store invariant |
| Views.ConsistentAfterEdit | library/views.py:168-175 | an edit with no ISBN clash keeps the store invariant, with a clamped book recorded |
| Views.ConsistentAfterDelete | library/views.py:183-193 | deleting a book, with its issues and requests, keeps the store invariant |
| Views.ConsistentAfterLoan | library/views.py:229-233 | a loan of a book in stock keeps the store invariant |
| Views.ConsistentAfterReturn | library/views.py:253-261 | returning an issue keeps the store invariant, and the book's availability was not negative |
| Views.ConsistentAfterDueDateChange | library/views.py:495-496 | a due date change keeps the store invariant |
| Views.ConsistentAfterStatusChange | library/views.py:269-271 | a status change keeps the store invariant |
| Views.ConsistentAfterNewRequest | library/views.py:403 | a new request for a stored book by a stored student keeps the store invariant |
| Views.Library.constructor | library/models.py:6-14 | an empty catalogue over the given students, with every id counter at 0, satisfies the store invariant |
| Views.Library.AddBook | library/views.py:150-163 | refused for a non-admin or an invalid form (a field too long or empty, a quantity outside the column range, a used ISBN); otherwise exactly one new book with all its copies available |
| Views.Library.EditBook | library/views.py:166-178 | refused for a non-admin, an unknown id or an invalid form (including a quantity outside the column range or an ISBN of another book); otherwise the fields are replaced and availability shifts by the quantity change, clamped at 0 |
| Views.Library.DeleteBook | library/views.py:181-193 | refused for a non-admin, an unknown id, or while a copy is out; otherwise the book goes, with its issues and requests |
| Views.Library.Lend | library/views.py:229-233 | one new unreturned issue and one copy fewer, nothing else changes |
| Views.Library.IssueBook | library/views.py:202-239 | an unknown student or ISBN, or no copy available, changes nothing; otherwise exactly one unreturned issue with the submitted due date and one copy fewer |
| Views.Library.GiveBack | library/views.py:255-261 | the issue is returned today and its book gets the copy back, nothing else changes |
| Views.Library.CompleteLatestRequest | library/views.py:263-271 | only the latest open request of that student for that book, if any, becomes Completed |
| Views.Library.ReturnBook | library/views.py:243-276 | only an unreturned issue can be returned; the fine reported is owed before and after the return; the copy comes back and at most one request is completed |
| Views.Library.ApproveBorrowRequest | library/views.py:314-350 | a request that is not pending changes nothing; out of stock it becomes Rejected with no issue; otherwise one issue due in 7 days, one copy fewer, Approved |
| Views.Library.RejectBorrowRequest | library/views.py:353-366 | only a pending request becomes Rejected, and nothing else changes |
| Views.Library.SubmitBorrowRequest | library/views.py:369-406 | never changes stock or issues; a new Pending request only when the student holds no unreturned issue and no open request for the book and a copy is available |
| Views.Library.RenewBook | library/views.py:473-499 | refused with the fine when one is owed; otherwise the due date moves to the later of due date and today plus the period, strictly later than before |
| Views.Library.StudentReturnRequest | library/views.py:441-464 | changes nothing; it reports which of not-your-issue or already-returned applies |
| Views.Library.AdminDashboard | library/views.py:88-94 | the overdue count is at most the issued count, which equals the number of return-form choices |
| Views.Library.StudentDashboard | library/views.py:96-120 | books due soon plus overdue books are at most the student's issued books |
| Views.Library.Dashboard | library/views.py:84-125 | admins get the library totals, students their own, anyone else nothing |
| Views.Library.Report | library/views.py:409-438 | overdue is at most issued; the potential fine equals the fine owed over all unreturned issues and is at least 10 per overdue issue |

## Left out

- Registration, login, logout and password hashing (`library/views.py:27-81`)
  are the web framework's authentication. The store is given its students when
  it is constructed.
- `book_list`, `manage_students_view` and `admin_borrow_requests` only list
  records for display, so they are not modelled.
- Templates, flash messages, redirects and display ordering are left out. The
  `login_required`/`user_passes_test` guards are kept only as the role checks
  that give `Refused(NotAuthorized)`.
- The clock (`date.today()`) is the parameter `today`. The renew form's
  load-time date is the constant `renewFormDay`.
- Concurrency is left out. The check-then-decrement on the available copies
  is modelled as one atomic step.
- Cascade deletes are written out in `DeleteBook` through `IssuesWithout` and
  `RequestsWithout` (both built on `Queries.RowsWhere`), not through the database.
- The `Student.DoesNotExist` branches of `dashboard_view`, `borrow_request`
  and `student_return_request` are unreachable. The role check already
  requires a profile.
- The "already returned" branch of `renew_book` is also unreachable, because
  the renew form offers only unreturned issues. Picking an issue the form no
  longer offers is `Refused(InvalidForm)`.
- Forms.BookFormValid: the quantity range is the 64-bit integer range that
  SQLite stores. A Django release that validates `IntegerField` on SQLite
  against a narrower range refuses more quantities than the model does.
- Whitespace stripping of form fields is not modelled. Field lengths are
  checked on the value as given.
- The profile fields roll, department, season, semester and shift are only
  stored and presented, so they are not modelled.
- `get_issue_label` and the widget attributes are presentation only.
- Views.LatestOpenRequest: when several open requests share the latest date,
  the one created last is completed. The database leaves this order undefined.
- Forms.InsertByIssueDate: issues with equal issue dates are offered in id
  order. The database leaves this order undefined.
- Views.Library.IssueBook and Views.Library.ApproveBorrowRequest: no "one
  active issue per student and book" property is stated, because the code
  does not enforce it.
