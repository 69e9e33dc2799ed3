/** The request handlers of the library: role checks, the book, issue,
    return, renewal and borrow-request workflows over the store, and the
    dashboard and report totals. Each handler either refuses and changes
    nothing, or performs a fixed set of field updates and record creations. */
module Views {
  import opened Models
  import opened Queries
  import opened Stock
  import Forms

  /** Days a loan runs when a borrow request is approved. */
  const DefaultLoanDays := 7

  /** How far ahead the student dashboard looks for books falling due. */
  const DueSoonDays := 3

  // ---------------------------------------------------------------- roles

  predicate IsAdmin(user: User)
  {
    user.isStaff && user.isSuperuser
  }

  predicate HasProfile(students: map<StudentId, Student>, user: User)
  {
    exists s :: s in students && students[s].user == user.id
  }

  predicate IsStudent(students: map<StudentId, Student>, user: User)
  {
    HasProfile(students, user) && !user.isStaff
  }

  /** No user is both an admin and a student: one needs the staff flag,
      the other its absence. */
  lemma RolesExclusive(students: map<StudentId, Student>, user: User)
    ensures !(IsAdmin(user) && IsStudent(students, user))
    ensures IsAdmin(user) ==> user.isStaff
    ensures IsStudent(students, user) ==> !user.isStaff && HasProfile(students, user)
  {
  }

  // ---------------------------------------------------------- store lookups

  ghost predicate UniqueIsbns(books: map<BookId, Book>)
  {
    forall a, b :: a in books && b in books && books[a].isbn == books[b].isbn ==> a == b
  }

  /** Registration numbers are unique, and a login has at most one profile. */
  ghost predicate UniqueStudents(students: map<StudentId, Student>)
  {
    && (forall a, b :: a in students && b in students && students[a].registrationNo == students[b].registrationNo ==> a == b)
    && (forall a, b :: a in students && b in students && students[a].user == students[b].user ==> a == b)
  }

  /** The student with a registration number, if any. */
  ghost function FindStudent(students: map<StudentId, Student>, registrationNo: string): (r: Option<StudentId>)
    ensures r.Some? ==> r.value in students && students[r.value].registrationNo == registrationNo
    ensures r.None? ==> forall s :: s in students ==> students[s].registrationNo != registrationNo
  {
    if exists s :: s in students && students[s].registrationNo == registrationNo then
      Some(var s :| s in students && students[s].registrationNo == registrationNo; s)
    else None
  }

  /** The book with an ISBN, if any. */
  ghost function FindBook(books: map<BookId, Book>, isbn: string): (r: Option<BookId>)
    ensures r.Some? ==> r.value in books && books[r.value].isbn == isbn
    ensures r.None? ==> forall b :: b in books ==> books[b].isbn != isbn
  {
    if exists b :: b in books && books[b].isbn == isbn then
      Some(var b :| b in books && books[b].isbn == isbn; b)
    else None
  }

  /** The student profile of a login, if any. */
  ghost function ProfileOf(students: map<StudentId, Student>, user: User): (r: Option<StudentId>)
    ensures r.Some? <==> HasProfile(students, user)
    ensures r.Some? ==> r.value in students && students[r.value].user == user.id
  {
    if HasProfile(students, user) then
      Some(var s :| s in students && students[s].user == user.id; s)
    else None
  }

  /** With unique registration numbers, the lookup finds the one student holding it. */
  lemma FindStudentUnique(students: map<StudentId, Student>, registrationNo: string, s: StudentId)
    requires UniqueStudents(students)
    requires s in students && students[s].registrationNo == registrationNo
    ensures FindStudent(students, registrationNo) == Some(s)
  {
  }

  /** With unique ISBNs, the lookup finds the one book holding it. */
  lemma FindBookUnique(books: map<BookId, Book>, isbn: string, b: BookId)
    requires UniqueIsbns(books)
    requires b in books && books[b].isbn == isbn
    ensures FindBook(books, isbn) == Some(b)
  {
  }

  /** A login has one profile at most, so the lookup finds it. */
  lemma ProfileUnique(students: map<StudentId, Student>, user: User, s: StudentId)
    requires UniqueStudents(students)
    requires s in students && students[s].user == user.id
    ensures ProfileOf(students, user) == Some(s)
  {
  }

  /** Another book than `id` already uses the ISBN. */
  predicate IsbnTakenByOther(books: map<BookId, Book>, isbn: string, id: BookId)
  {
    exists b :: b in books && b != id && books[b].isbn == isbn
  }

  /** Some copy of book `b` is still out. */
  predicate HasCopiesOut(issues: map<nat, Issue>, b: BookId)
  {
    exists k :: k in issues && issues[k].book == b && !issues[k].isReturned
  }

  /** Student `s` holds an unreturned issue of book `b`. */
  predicate HoldsIssue(issues: map<nat, Issue>, s: StudentId, b: BookId)
  {
    exists k :: k in issues && issues[k].student == s && issues[k].book == b && !issues[k].isReturned
  }

  /** A request of student `s` for book `b` that is still pending or approved. */
  predicate IsOpenFor(request: BorrowRequest, s: StudentId, b: BookId)
  {
    request.student == s && request.book == b && (request.status == Pending || request.status == Approved)
  }

  predicate HasOpenRequest(requests: map<nat, BorrowRequest>, s: StudentId, b: BookId)
  {
    exists k :: k in requests && IsOpenFor(requests[k], s, b)
  }

  /** The requests that survive deleting book `b`. */
  function RequestsWithout(requests: map<nat, BorrowRequest>, b: BookId): map<nat, BorrowRequest>
  {
    RowsWhere(requests, (q: BorrowRequest) => q.book != b)
  }

  /** The latest-dated open request of student `s` for book `b` among the
      ids below `n`; of several with the same date, the one created last. */
  function LatestOpenRequest(requests: map<nat, BorrowRequest>, n: nat, s: StudentId, b: BookId): (r: Option<nat>)
    ensures r.Some? ==> r.value < n && r.value in requests && IsOpenFor(requests[r.value], s, b)
    ensures r.Some? ==> forall k :: k < n && k in requests && IsOpenFor(requests[k], s, b) ==>
                          requests[k].requestDate <= requests[r.value].requestDate
    ensures r.None? <==> forall k :: k < n && k in requests ==> !IsOpenFor(requests[k], s, b)
  {
    if n == 0 then None
    else
      var earlier := LatestOpenRequest(requests, n - 1, s, b);
      if n - 1 in requests && IsOpenFor(requests[n - 1], s, b)
         && (earlier.None? || requests[earlier.value].requestDate <= requests[n - 1].requestDate)
      then Some(n - 1)
      else earlier
  }

  /** The new due date of a renewal: the renewal period counted from the
      due date, or from today when that is later. */
  function RenewedDueDate(dueDate: Day, today: Day, renewalDays: int): (newDue: Day)
    ensures newDue - renewalDays >= dueDate && newDue - renewalDays >= today
    ensures newDue - renewalDays == dueDate || newDue - renewalDays == today
  {
    (if dueDate >= today then dueDate else today) + renewalDays
  }

  /** A renewal always moves the due date later; an issue due today renewed
      for 10 days is due 10 days from today. */
  lemma RenewalExtends(dueDate: Day, today: Day, renewalDays: int)
    requires Forms.RenewalDaysValid(renewalDays)
    ensures RenewedDueDate(dueDate, today, renewalDays) > dueDate
    ensures RenewedDueDate(today, today, 10) == today + 10
  {
  }

  // ---------------------------------------------------------- report filters

  function Unreturned(): Issue -> bool
  {
    (i: Issue) => !i.isReturned
  }

  function Overdue(today: Day): Issue -> bool
  {
    (i: Issue) => !i.isReturned && i.dueDate < today
  }

  function FineOn(today: Day): Issue -> int
  {
    (i: Issue) => Fine(i, today)
  }

  /** The report and the dashboard count the unreturned issues; that is
      also the number of choices the return form offers. */
  lemma {:induction false} ReturnChoicesCount(issues: map<nat, Issue>, n: nat)
    ensures |Forms.ReturnChoices(issues, n)| == CountWhere(issues, n, Unreturned())
  {
    if n > 0 {
      ReturnChoicesCount(issues, n - 1);
    }
  }

  /** Every overdue issue owes at least one day's fine, an issue not overdue
      owes nothing, and no fine is negative. */
  lemma OverdueFines(today: Day)
    ensures forall i :: Overdue(today)(i) ==> FineOn(today)(i) >= FinePerDay
    ensures forall i :: Unreturned()(i) && !Overdue(today)(i) ==> FineOn(today)(i) == 0
    ensures forall i :: Overdue(today)(i) ==> Unreturned()(i)
  {
  }

  // ---------------------------------------------------------- dashboard types

  datatype AdminSummary = AdminSummary(
    totalBooks: int,
    totalStudents: nat,
    issuedBooks: nat,
    pendingRequests: nat,
    overdueBooks: nat)

  datatype StudentSummary = StudentSummary(
    totalIssued: nat,
    dueSoon: nat,
    overdue: nat,
    pendingRequests: nat,
    approvedRequests: nat)

  datatype DashboardView = AdminView(admin: AdminSummary) | StudentView(student: StudentSummary) | NoSummary

  datatype ReportTotals = ReportTotals(booksIssued: nat, overdue: nat, potentialFine: int)

  // ---------------------------------------------------------- handler results

  datatype Refusal =
    | NotAuthorized      // the role check failed: redirect, nothing else
    | InvalidForm        // the submitted form did not validate
    | NotFound           // no record with the id in the URL
    | StudentNotFound
    | BookNotFound
    | OutOfStock
    | AlreadyIssued
    | DuplicateRequest
    | NotPending
    | FineOutstanding(fine: int)
    | CopiesIssuedOut
    | NotYourIssue
    | AlreadyReturned

  datatype Outcome = Done | Refused(reason: Refusal) | RejectedOutOfStock

  // ---------------------------------------------------------- store invariant

  /** Every issue and request refers to a stored book and student, an issue has
      a return date exactly when it is returned, ISBNs and registration numbers
      are unique, ids lie below the next ids, and the copies balance. */
  ghost predicate Consistent(books: map<BookId, Book>, students: map<StudentId, Student>,
                             issues: map<nat, Issue>, requests: map<nat, BorrowRequest>,
                             nextBook: nat, nextIssue: nat, nextRequest: nat, clamped: set<BookId>)
  {
    && KeysBelow(books, nextBook) && KeysBelow(issues, nextIssue) && KeysBelow(requests, nextRequest)
    && IssuesLinked(books, students, issues)
    && RequestsLinked(books, students, requests)
    && UniqueIsbns(books) && UniqueStudents(students)
    && Balanced(books, issues, nextIssue, clamped)
  }

  ghost predicate IssuesLinked(books: map<BookId, Book>, students: map<StudentId, Student>, issues: map<nat, Issue>)
  {
    forall k :: k in issues ==>
      && issues[k].book in books && issues[k].student in students
      && (issues[k].isReturned <==> issues[k].returnDate.Some?)
  }

  ghost predicate RequestsLinked(books: map<BookId, Book>, students: map<StudentId, Student>, requests: map<nat, BorrowRequest>)
  {
    forall k :: k in requests ==> requests[k].book in books && requests[k].student in students
  }

  lemma ConsistentAfterAdd(books: map<BookId, Book>, students: map<StudentId, Student>,
                           issues: map<nat, Issue>, requests: map<nat, BorrowRequest>,
                           nextBook: nat, nextIssue: nat, nextRequest: nat, clamped: set<BookId>, book: Book)
    requires Consistent(books, students, issues, requests, nextBook, nextIssue, nextRequest, clamped)
    requires FindBook(books, book.isbn).None? && book.availableCopies == book.quantity
    ensures Consistent(books[nextBook := book], students, issues, requests, nextBook + 1, nextIssue, nextRequest, clamped)
  {
    BalancedAfterAdd(books, issues, nextIssue, clamped, nextBook, book);
  }

  lemma ConsistentAfterEdit(books: map<BookId, Book>, students: map<StudentId, Student>,
                            issues: map<nat, Issue>, requests: map<nat, BorrowRequest>,
                            nextBook: nat, nextIssue: nat, nextRequest: nat, clamped: set<BookId>,
                            id: BookId, edited: Book)
    requires Consistent(books, students, issues, requests, nextBook, nextIssue, nextRequest, clamped)
    requires id in books && !IsbnTakenByOther(books, edited.isbn, id)
    requires edited.availableCopies == books[id].availableCopies
    ensures
      var shifted := edited.availableCopies + (edited.quantity - books[id].quantity);
      Consistent(books[id := edited.(availableCopies := AdjustedCopies(Some(books[id]), edited))], students, issues, requests,
                 nextBook, nextIssue, nextRequest, if shifted < 0 then clamped + {id} else clamped)
  {
    BalancedAfterEdit(books, issues, nextIssue, clamped, id, edited);
  }

  lemma ConsistentAfterDelete(books: map<BookId, Book>, students: map<StudentId, Student>,
                              issues: map<nat, Issue>, requests: map<nat, BorrowRequest>,
                              nextBook: nat, nextIssue: nat, nextRequest: nat, clamped: set<BookId>, id: BookId)
    requires Consistent(books, students, issues, requests, nextBook, nextIssue, nextRequest, clamped)
    ensures Consistent(books - {id}, students, IssuesWithout(issues, id), RequestsWithout(requests, id),
                       nextBook, nextIssue, nextRequest, clamped - {id})
  {
    BalancedAfterDelete(books, issues, nextIssue, clamped, id);
  }

  /** A new issue of a book in stock at the next issue id, with one copy fewer available. */
  lemma ConsistentAfterLoan(books: map<BookId, Book>, students: map<StudentId, Student>,
                            issues: map<nat, Issue>, requests: map<nat, BorrowRequest>,
                            nextBook: nat, nextIssue: nat, nextRequest: nat, clamped: set<BookId>, x: Issue)
    requires Consistent(books, students, issues, requests, nextBook, nextIssue, nextRequest, clamped)
    requires x.book in books && x.student in students && !x.isReturned && x.returnDate.None?
    requires books[x.book].availableCopies > 0
    ensures Consistent(books[x.book := books[x.book].(availableCopies := books[x.book].availableCopies - 1)], students,
                       issues[nextIssue := x], requests, nextBook, nextIssue + 1, nextRequest, clamped)
  {
    BalancedAfterLoan(books, issues, nextIssue, clamped, x.book, x);
  }

  /** Closing an issue today, with its copy given back. */
  lemma ConsistentAfterReturn(books: map<BookId, Book>, students: map<StudentId, Student>,
                              issues: map<nat, Issue>, requests: map<nat, BorrowRequest>,
                              nextBook: nat, nextIssue: nat, nextRequest: nat, clamped: set<BookId>,
                              k: nat, today: Day)
    requires Consistent(books, students, issues, requests, nextBook, nextIssue, nextRequest, clamped)
    requires k in issues && !issues[k].isReturned
    ensures books[issues[k].book].availableCopies >= 0
    ensures
      var b := issues[k].book;
      Consistent(books[b := books[b].(availableCopies := books[b].availableCopies + 1)], students,
                 issues[k := issues[k].(isReturned := true, returnDate := Some(today))], requests,
                 nextBook, nextIssue, nextRequest, clamped)
  {
    BalancedAfterReturn(books, issues, nextIssue, clamped, k, issues[k].(isReturned := true, returnDate := Some(today)));
  }

  /** Moving the due date of an issue. */
  lemma ConsistentAfterDueDateChange(books: map<BookId, Book>, students: map<StudentId, Student>,
                                     issues: map<nat, Issue>, requests: map<nat, BorrowRequest>,
                                     nextBook: nat, nextIssue: nat, nextRequest: nat, clamped: set<BookId>,
                                     k: nat, dueDate: Day)
    requires Consistent(books, students, issues, requests, nextBook, nextIssue, nextRequest, clamped)
    requires k in issues
    ensures Consistent(books, students, issues[k := issues[k].(dueDate := dueDate)], requests,
                       nextBook, nextIssue, nextRequest, clamped)
  {
    BalancedAfterIssueChange(books, issues, nextIssue, clamped, k, issues[k].(dueDate := dueDate));
  }

  /** A stored request refers to a stored book and student. */
  lemma RequestLinked(books: map<BookId, Book>, students: map<StudentId, Student>,
                      issues: map<nat, Issue>, requests: map<nat, BorrowRequest>,
                      nextBook: nat, nextIssue: nat, nextRequest: nat, clamped: set<BookId>, k: nat)
    requires Consistent(books, students, issues, requests, nextBook, nextIssue, nextRequest, clamped)
    requires k in requests
    ensures requests[k].book in books && requests[k].student in students
  {
  }

  /** Changing the status of a request. */
  lemma ConsistentAfterStatusChange(books: map<BookId, Book>, students: map<StudentId, Student>,
                                    issues: map<nat, Issue>, requests: map<nat, BorrowRequest>,
                                    nextBook: nat, nextIssue: nat, nextRequest: nat, clamped: set<BookId>,
                                    k: nat, status: Status)
    requires Consistent(books, students, issues, requests, nextBook, nextIssue, nextRequest, clamped)
    requires k in requests
    ensures Consistent(books, students, issues, requests[k := requests[k].(status := status)], nextBook, nextIssue,
                       nextRequest, clamped)
  {
  }

  /** Creating a request at the next request id. */
  lemma ConsistentAfterNewRequest(books: map<BookId, Book>, students: map<StudentId, Student>,
                                  issues: map<nat, Issue>, requests: map<nat, BorrowRequest>,
                                  nextBook: nat, nextIssue: nat, nextRequest: nat, clamped: set<BookId>,
                                  request: BorrowRequest)
    requires Consistent(books, students, issues, requests, nextBook, nextIssue, nextRequest, clamped)
    requires request.book in books && request.student in students
    ensures Consistent(books, students, issues, requests[nextRequest := request], nextBook, nextIssue,
                       nextRequest + 1, clamped)
  {
  }

  // ---------------------------------------------------------- the store

  class Library {
    var books: map<BookId, Book>
    var students: map<StudentId, Student>
    var issues: map<nat, Issue>
    var requests: map<nat, BorrowRequest>
    var nextBook: nat
    var nextIssue: nat
    var nextRequest: nat
    /** The date the renew form's choices were fixed at, when it was loaded. */
    const renewFormDay: Day
    /** Books an edit clamped at 0 copies: for them the copies only balance as "at least". */
    ghost var clamped: set<BookId>

    ghost predicate Valid()
      reads this
    {
      Consistent(books, students, issues, requests, nextBook, nextIssue, nextRequest, clamped)
    }

    constructor (students: map<StudentId, Student>, renewFormDay: Day)
      requires UniqueStudents(students)
      ensures Valid()
      ensures this.students == students && this.renewFormDay == renewFormDay
      ensures books == map[] && issues == map[] && requests == map[] && clamped == {}
      ensures nextBook == 0 && nextIssue == 0 && nextRequest == 0
    {
      this.books := map[];
      this.students := students;
      this.issues := map[];
      this.requests := map[];
      this.nextBook := 0;
      this.nextIssue := 0;
      this.nextRequest := 0;
      this.renewFormDay := renewFormDay;
      this.clamped := {};
    }

    /** add_book: a valid form with an unused ISBN creates the book with all
        its copies available. */
    method AddBook(user: User, title: string, authorName: string, isbn: string, bookType: string, quantity: int)
      returns (r: Outcome)
      requires Valid()
      modifies this
      ensures Valid()
      ensures r == (if !IsAdmin(user) then Refused(NotAuthorized)
                    else if !Forms.BookFormValid(title, authorName, isbn, bookType, quantity) || FindBook(old(books), isbn).Some?
                    then Refused(InvalidForm)
                    else Done)
      ensures r != Done ==> unchanged(this)
      ensures r == Done ==>
        && books == old(books)[old(nextBook) := Book(title, authorName, isbn, bookType, quantity, quantity)]
        && nextBook == old(nextBook) + 1
        && issues == old(issues) && requests == old(requests) && students == old(students)
        && nextIssue == old(nextIssue) && nextRequest == old(nextRequest) && clamped == old(clamped)
    {
      if !IsAdmin(user) {
        return Refused(NotAuthorized);
      }
      if !Forms.BookFormValid(title, authorName, isbn, bookType, quantity) || exists b :: b in books && books[b].isbn == isbn {
        return Refused(InvalidForm);
      }
      var book := Book(title, authorName, isbn, bookType, quantity, DefaultAvailableCopies);
      book := SaveBook(None, book);
      ConsistentAfterAdd(books, students, issues, requests, nextBook, nextIssue, nextRequest, clamped, book);
      books := books[nextBook := book];
      nextBook := nextBook + 1;
      r := Done;
    }

    /** edit_book: the stored book takes the form's fields; its available
        copies shift by the change in quantity, clamped at 0. */
    method EditBook(user: User, id: BookId, title: string, authorName: string, isbn: string, bookType: string,
                    quantity: int)
      returns (r: Outcome)
      requires Valid()
      modifies this
      ensures Valid()
      ensures r == (if !IsAdmin(user) then Refused(NotAuthorized)
                    else if id !in old(books) then Refused(NotFound)
                    else if !Forms.BookFormValid(title, authorName, isbn, bookType, quantity) || IsbnTakenByOther(old(books), isbn, id)
                    then Refused(InvalidForm)
                    else Done)
      ensures r != Done ==> unchanged(this)
      ensures r == Done ==>
        var stored := old(books)[id];
        var shifted := stored.availableCopies + (quantity - stored.quantity);
        && books == old(books)[id := Book(title, authorName, isbn, bookType, quantity, if shifted < 0 then 0 else shifted)]
        && clamped == (if shifted < 0 then old(clamped) + {id} else old(clamped))
        && issues == old(issues) && requests == old(requests) && students == old(students)
        && nextBook == old(nextBook) && nextIssue == old(nextIssue) && nextRequest == old(nextRequest)
    {
      if !IsAdmin(user) {
        return Refused(NotAuthorized);
      }
      if id !in books {
        return Refused(NotFound);
      }
      if !Forms.BookFormValid(title, authorName, isbn, bookType, quantity) || IsbnTakenByOther(books, isbn, id) {
        return Refused(InvalidForm);
      }
      var stored := books[id];
      var edited := stored.(title := title, authorName := authorName, isbn := isbn, bookType := bookType,
                            quantity := quantity);
      var saved := SaveBook(Some(stored), edited);
      ConsistentAfterEdit(books, students, issues, requests, nextBook, nextIssue, nextRequest, clamped, id, edited);
      if stored.availableCopies + (quantity - stored.quantity) < 0 {
        clamped := clamped + {id};
      }
      books := books[id := saved];
      r := Done;
    }

    /** delete_book: refused while a copy is out; otherwise the book goes, and its
        issues and requests with it. */
    method DeleteBook(user: User, id: BookId) returns (r: Outcome)
      requires Valid()
      modifies this
      ensures Valid()
      ensures r == (if !IsAdmin(user) then Refused(NotAuthorized)
                    else if id !in old(books) then Refused(NotFound)
                    else if HasCopiesOut(old(issues), id) then Refused(CopiesIssuedOut)
                    else Done)
      ensures r != Done ==> unchanged(this)
      ensures r == Done ==>
        && books == old(books) - {id}
        && issues == IssuesWithout(old(issues), id)
        && requests == RequestsWithout(old(requests), id)
        && clamped == old(clamped) - {id}
        && students == old(students)
        && nextBook == old(nextBook) && nextIssue == old(nextIssue) && nextRequest == old(nextRequest)
    {
      if !IsAdmin(user) {
        return Refused(NotAuthorized);
      }
      if id !in books {
        return Refused(NotFound);
      }
      if HasCopiesOut(issues, id) {
        return Refused(CopiesIssuedOut);
      }
      ConsistentAfterDelete(books, students, issues, requests, nextBook, nextIssue, nextRequest, clamped, id);
      books := books - {id};
      issues := IssuesWithout(issues, id);
      requests := RequestsWithout(requests, id);
      clamped := clamped - {id};
      r := Done;
    }

    /** The loan both issue_book and approve_borrow_request make: a new
        unreturned issue of book `b` to student `s`, and one copy fewer
        available, saved through Book.save. */
    method Lend(b: BookId, s: StudentId, dueDate: Day, today: Day)
      requires Valid()
      requires b in books && s in students && books[b].availableCopies > 0
      modifies this
      ensures Valid()
      ensures issues == old(issues)[old(nextIssue) := Issue(b, s, today, dueDate, false, None)]
      ensures nextIssue == old(nextIssue) + 1
      ensures books == old(books)[b := old(books)[b].(availableCopies := old(books)[b].availableCopies - 1)]
      ensures requests == old(requests) && students == old(students) && clamped == old(clamped)
      ensures nextBook == old(nextBook) && nextRequest == old(nextRequest)
    {
      var issue := Issue(b, s, today, dueDate, false, None);
      ConsistentAfterLoan(books, students, issues, requests, nextBook, nextIssue, nextRequest, clamped, issue);
      var stored := books[b];
      var book := SaveBook(Some(stored), stored.(availableCopies := stored.availableCopies - 1));
      SaveKeepsCopies(stored, stored.(availableCopies := stored.availableCopies - 1));
      issues := issues[nextIssue := issue];
      nextIssue := nextIssue + 1;
      books := books[b := book];
    }

    /** issue_book: a direct loan by registration number and ISBN. */
    method IssueBook(user: User, registrationNo: string, isbn: string, dueDate: Day, today: Day)
      returns (r: Outcome)
      requires Valid()
      modifies this
      ensures Valid()
      ensures r == (if !IsAdmin(user) then Refused(NotAuthorized)
                    else if !Forms.IssueFormValid(registrationNo, isbn) then Refused(InvalidForm)
                    else if FindStudent(old(students), registrationNo).None? then Refused(StudentNotFound)
                    else if FindBook(old(books), isbn).None? then Refused(BookNotFound)
                    else if old(books)[FindBook(old(books), isbn).value].availableCopies <= 0 then Refused(OutOfStock)
                    else Done)
      ensures r != Done ==> unchanged(this)
      ensures r == Done ==>
        var s := FindStudent(old(students), registrationNo).value;
        var b := FindBook(old(books), isbn).value;
        && issues == old(issues)[old(nextIssue) := Issue(b, s, today, dueDate, false, None)]
        && nextIssue == old(nextIssue) + 1
        && books == old(books)[b := old(books)[b].(availableCopies := old(books)[b].availableCopies - 1)]
        && requests == old(requests) && students == old(students) && clamped == old(clamped)
        && nextBook == old(nextBook) && nextRequest == old(nextRequest)
    {
      if !IsAdmin(user) {
        return Refused(NotAuthorized);
      }
      if !Forms.IssueFormValid(registrationNo, isbn) {
        return Refused(InvalidForm);
      }
      if !exists s :: s in students && students[s].registrationNo == registrationNo {
        return Refused(StudentNotFound);
      }
      var s :| s in students && students[s].registrationNo == registrationNo;
      if !exists b :: b in books && books[b].isbn == isbn {
        return Refused(BookNotFound);
      }
      var b :| b in books && books[b].isbn == isbn;
      FindStudentUnique(students, registrationNo, s);
      FindBookUnique(books, isbn, b);
      if books[b].availableCopies <= 0 {
        return Refused(OutOfStock);
      }
      Lend(b, s, dueDate, today);
      r := Done;
    }

    /** The return of an issue still out: it is marked returned today and its
        book gets the copy back, saved through Book.save. */
    method GiveBack(issueId: nat, today: Day)
      requires Valid()
      requires issueId in issues && !issues[issueId].isReturned
      modifies this
      ensures Valid()
      ensures issues == old(issues)[issueId := old(issues)[issueId].(isReturned := true, returnDate := Some(today))]
      ensures
        var b := old(issues)[issueId].book;
        books == old(books)[b := old(books)[b].(availableCopies := old(books)[b].availableCopies + 1)]
      ensures requests == old(requests) && students == old(students) && clamped == old(clamped)
      ensures nextBook == old(nextBook) && nextIssue == old(nextIssue) && nextRequest == old(nextRequest)
    {
      var issue := issues[issueId];
      ConsistentAfterReturn(books, students, issues, requests, nextBook, nextIssue, nextRequest, clamped, issueId, today);
      var stored := books[issue.book];
      var book := SaveBook(Some(stored), stored.(availableCopies := stored.availableCopies + 1));
      SaveKeepsCopies(stored, stored.(availableCopies := stored.availableCopies + 1));
      var returned := issue.(isReturned := true, returnDate := Some(today));
      issues := issues[issueId := returned];
      books := books[issue.book := book];
    }

    /** The latest open request of student `s` for book `b`, if any, is completed. */
    method CompleteLatestRequest(s: StudentId, b: BookId)
      requires Valid()
      modifies this
      ensures Valid()
      ensures
        var latest := LatestOpenRequest(old(requests), old(nextRequest), s, b);
        requests == (if latest.Some? then old(requests)[latest.value := old(requests)[latest.value].(status := Completed)]
                     else old(requests))
      ensures books == old(books) && issues == old(issues) && students == old(students) && clamped == old(clamped)
      ensures nextBook == old(nextBook) && nextIssue == old(nextIssue) && nextRequest == old(nextRequest)
    {
      var latest := LatestOpenRequest(requests, nextRequest, s, b);
      if latest.Some? {
        ConsistentAfterStatusChange(books, students, issues, requests, nextBook, nextIssue, nextRequest, clamped, latest.value, Completed);
        requests := requests[latest.value := requests[latest.value].(status := Completed)];
      }
    }

    /** return_book: closes an unreturned issue today, gives the copy back and
        completes the latest open request of that student for that book. The
        fine reported is the one owed at the moment of return. */
    method ReturnBook(user: User, issueId: nat, today: Day) returns (r: Outcome, fine: int)
      requires Valid()
      modifies this
      ensures Valid()
      ensures r == (if !IsAdmin(user) then Refused(NotAuthorized)
                    else if !Forms.Returnable(old(issues), old(nextIssue), issueId) then Refused(InvalidForm)
                    else Done)
      ensures r != Done ==> unchanged(this) && fine == 0
      ensures r == Done ==>
        var issue := old(issues)[issueId];
        var b := issue.book;
        var latest := LatestOpenRequest(old(requests), old(nextRequest), issue.student, b);
        && fine == Fine(issue, today)
        && issues == old(issues)[issueId := issue.(isReturned := true, returnDate := Some(today))]
        && fine == Fine(issues[issueId], today)
        && books == old(books)[b := old(books)[b].(availableCopies := old(books)[b].availableCopies + 1)]
        && requests == (if latest.Some? then old(requests)[latest.value := old(requests)[latest.value].(status := Completed)]
                        else old(requests))
        && students == old(students) && clamped == old(clamped)
        && nextBook == old(nextBook) && nextIssue == old(nextIssue) && nextRequest == old(nextRequest)
    {
      fine := 0;
      if !IsAdmin(user) {
        return Refused(NotAuthorized), fine;
      }
      if !Forms.Returnable(issues, nextIssue, issueId) {
        return Refused(InvalidForm), fine;
      }
      var issue := issues[issueId];
      fine := Fine(issue, today);
      ReturnKeepsFine(issue, today);
      GiveBack(issueId, today);
      CompleteLatestRequest(issue.student, issue.book);
      r := Done;
    }

    /** approve_borrow_request: only a pending request; when the book is out of
        stock the request is rejected instead, otherwise a 7-day loan is made. */
    method ApproveBorrowRequest(user: User, requestId: nat, today: Day) returns (r: Outcome)
      requires Valid()
      modifies this
      ensures Valid()
      ensures r == (if !IsAdmin(user) then Refused(NotAuthorized)
                    else if requestId !in old(requests) then Refused(NotFound)
                    else if old(requests)[requestId].status != Pending then Refused(NotPending)
                    else if old(books)[old(requests)[requestId].book].availableCopies <= 0 then RejectedOutOfStock
                    else Done)
      ensures r.Refused? ==> unchanged(this)
      ensures r == RejectedOutOfStock ==>
        && requests == old(requests)[requestId := old(requests)[requestId].(status := Rejected)]
        && books == old(books) && issues == old(issues) && students == old(students) && clamped == old(clamped)
        && nextBook == old(nextBook) && nextIssue == old(nextIssue) && nextRequest == old(nextRequest)
      ensures r == Done ==>
        var request := old(requests)[requestId];
        var b := request.book;
        && issues == old(issues)[old(nextIssue) := Issue(b, request.student, today, today + DefaultLoanDays, false, None)]
        && nextIssue == old(nextIssue) + 1
        && books == old(books)[b := old(books)[b].(availableCopies := old(books)[b].availableCopies - 1)]
        && requests == old(requests)[requestId := request.(status := Approved)]
        && students == old(students) && clamped == old(clamped)
        && nextBook == old(nextBook) && nextRequest == old(nextRequest)
    {
      if !IsAdmin(user) {
        return Refused(NotAuthorized);
      }
      if requestId !in requests {
        return Refused(NotFound);
      }
      var request := requests[requestId];
      if request.status != Pending {
        return Refused(NotPending);
      }
      var b := request.book;
      if books[b].availableCopies <= 0 {
        ConsistentAfterStatusChange(books, students, issues, requests, nextBook, nextIssue, nextRequest, clamped, requestId, Rejected);
        requests := requests[requestId := request.(status := Rejected)];
        return RejectedOutOfStock;
      }
      var dueDate := today + DefaultLoanDays;
      RequestLinked(books, students, issues, requests, nextBook, nextIssue, nextRequest, clamped, requestId);
      Lend(b, request.student, dueDate, today);
      ConsistentAfterStatusChange(books, students, issues, requests, nextBook, nextIssue, nextRequest, clamped, requestId, Approved);
      requests := requests[requestId := request.(status := Approved)];
      r := Done;
    }

    /** reject_borrow_request: only a pending request becomes rejected. */
    method RejectBorrowRequest(user: User, requestId: nat) returns (r: Outcome)
      requires Valid()
      modifies this
      ensures Valid()
      ensures r == (if !IsAdmin(user) then Refused(NotAuthorized)
                    else if requestId !in old(requests) then Refused(NotFound)
                    else if old(requests)[requestId].status != Pending then Refused(NotPending)
                    else Done)
      ensures r != Done ==> unchanged(this)
      ensures r == Done ==>
        && requests == old(requests)[requestId := old(requests)[requestId].(status := Rejected)]
        && books == old(books) && issues == old(issues) && students == old(students) && clamped == old(clamped)
        && nextBook == old(nextBook) && nextIssue == old(nextIssue) && nextRequest == old(nextRequest)
    {
      if !IsAdmin(user) {
        return Refused(NotAuthorized);
      }
      if requestId !in requests {
        return Refused(NotFound);
      }
      if requests[requestId].status != Pending {
        return Refused(NotPending);
      }
      ConsistentAfterStatusChange(books, students, issues, requests, nextBook, nextIssue, nextRequest, clamped, requestId, Rejected);
      requests := requests[requestId := requests[requestId].(status := Rejected)];
      r := Done;
    }

    /** borrow_request: a student asks for a book. Refused when the student
        already holds it, already has an open request for it, or it is out of
        stock; never changes the stock. */
    method SubmitBorrowRequest(user: User, bookId: BookId, today: Day) returns (r: Outcome)
      requires Valid()
      modifies this
      ensures Valid()
      ensures books == old(books) && issues == old(issues)
      ensures r == (if !IsStudent(old(students), user) then Refused(NotAuthorized)
                    else if bookId !in old(books) then Refused(NotFound)
                    else if HoldsIssue(old(issues), ProfileOf(old(students), user).value, bookId) then Refused(AlreadyIssued)
                    else if HasOpenRequest(old(requests), ProfileOf(old(students), user).value, bookId) then Refused(DuplicateRequest)
                    else if old(books)[bookId].availableCopies <= 0 then Refused(OutOfStock)
                    else Done)
      ensures r != Done ==> unchanged(this)
      ensures r == Done ==>
        && requests == old(requests)[old(nextRequest) := BorrowRequest(bookId, ProfileOf(old(students), user).value, today, Pending)]
        && nextRequest == old(nextRequest) + 1
        && students == old(students) && clamped == old(clamped)
        && nextBook == old(nextBook) && nextIssue == old(nextIssue)
    {
      if !IsStudent(students, user) {
        return Refused(NotAuthorized);
      }
      if bookId !in books {
        return Refused(NotFound);
      }
      var s :| s in students && students[s].user == user.id;
      ProfileUnique(students, user, s);
      if HoldsIssue(issues, s, bookId) {
        return Refused(AlreadyIssued);
      }
      if HasOpenRequest(requests, s, bookId) {
        return Refused(DuplicateRequest);
      }
      if books[bookId].availableCopies <= 0 {
        return Refused(OutOfStock);
      }
      ConsistentAfterNewRequest(books, students, issues, requests, nextBook, nextIssue, nextRequest, clamped, BorrowRequest(bookId, s, today, Pending));
      requests := requests[nextRequest := BorrowRequest(bookId, s, today, Pending)];
      nextRequest := nextRequest + 1;
      r := Done;
    }

    /** renew_book: an unreturned issue the form offers, with no fine owed, is
        due the renewal period later. */
    method RenewBook(user: User, issueId: nat, renewalDays: int, today: Day) returns (r: Outcome)
      requires Valid()
      modifies this
      ensures Valid()
      ensures r == (if !IsAdmin(user) then Refused(NotAuthorized)
                    else if !(issueId in old(issues) && Forms.RenewChoice(old(issues)[issueId], renewFormDay)
                              && Forms.RenewalDaysValid(renewalDays))
                    then Refused(InvalidForm)
                    else if Fine(old(issues)[issueId], today) > 0 then Refused(FineOutstanding(Fine(old(issues)[issueId], today)))
                    else Done)
      ensures r != Done ==> unchanged(this)
      ensures r == Done ==>
        var issue := old(issues)[issueId];
        && issues == old(issues)[issueId := issue.(dueDate := RenewedDueDate(issue.dueDate, today, renewalDays))]
        && issues[issueId].dueDate == issue.dueDate + renewalDays
        && issues[issueId].dueDate > issue.dueDate
        && books == old(books) && requests == old(requests) && students == old(students) && clamped == old(clamped)
        && nextBook == old(nextBook) && nextIssue == old(nextIssue) && nextRequest == old(nextRequest)
    {
      if !IsAdmin(user) {
        return Refused(NotAuthorized);
      }
      if !(issueId in issues && Forms.RenewChoice(issues[issueId], renewFormDay) && Forms.RenewalDaysValid(renewalDays)) {
        return Refused(InvalidForm);
      }
      var issue := issues[issueId];
      var fineDue := Fine(issue, today);
      if fineDue > 0 {
        return Refused(FineOutstanding(fineDue));
      }
      NoFineMeansNotOverdue(issue, today);
      var renewed := issue.(dueDate := RenewedDueDate(issue.dueDate, today, renewalDays));
      ConsistentAfterDueDateChange(books, students, issues, requests, nextBook, nextIssue, nextRequest, clamped, issueId, renewed.dueDate);
      issues := issues[issueId := renewed];
      r := Done;
    }

    /** student_return_request: a student acknowledges handing a book back;
        the issue stays open until the librarian checks it in. */
    method StudentReturnRequest(user: User, issueId: nat) returns (r: Outcome)
      requires Valid()
      ensures r == (if !IsStudent(students, user) then Refused(NotAuthorized)
                    else if issueId !in issues then Refused(NotFound)
                    else if issues[issueId].student != ProfileOf(students, user).value then Refused(NotYourIssue)
                    else if issues[issueId].isReturned then Refused(AlreadyReturned)
                    else Done)
    {
      if !IsStudent(students, user) {
        return Refused(NotAuthorized);
      }
      if issueId !in issues {
        return Refused(NotFound);
      }
      var s :| s in students && students[s].user == user.id;
      ProfileUnique(students, user, s);
      if issues[issueId].student != s {
        return Refused(NotYourIssue);
      }
      if issues[issueId].isReturned {
        return Refused(AlreadyReturned);
      }
      r := Done;
    }

    /** The admin dashboard's totals. */
    function AdminDashboard(today: Day): (d: AdminSummary)
      reads this
      ensures d.overdueBooks <= d.issuedBooks
      ensures d.issuedBooks == |Forms.ReturnChoices(issues, nextIssue)|
    {
      CountMonotone(issues, nextIssue, Overdue(today), Unreturned());
      ReturnChoicesCount(issues, nextIssue);
      AdminSummary(
        SumWhere(books, nextBook, (b: Book) => true, (b: Book) => b.quantity),
        |students|,
        CountWhere(issues, nextIssue, Unreturned()),
        CountWhere(requests, nextRequest, (q: BorrowRequest) => q.status == Pending),
        CountWhere(issues, nextIssue, Overdue(today)))
    }

    /** The student dashboard's totals for student `s`. */
    function StudentDashboard(s: StudentId, today: Day): (d: StudentSummary)
      reads this
      ensures d.dueSoon + d.overdue <= d.totalIssued
    {
      var mine := (i: Issue) => i.student == s && !i.isReturned;
      var dueSoon := (i: Issue) => i.student == s && !i.isReturned && today <= i.dueDate <= today + DueSoonDays;
      var late := (i: Issue) => i.student == s && !i.isReturned && i.dueDate < today;
      CountDisjoint(issues, nextIssue, dueSoon, late, mine);
      StudentSummary(
        CountWhere(issues, nextIssue, mine),
        CountWhere(issues, nextIssue, dueSoon),
        CountWhere(issues, nextIssue, late),
        CountWhere(requests, nextRequest, (q: BorrowRequest) => q.student == s && q.status == Pending),
        CountWhere(requests, nextRequest, (q: BorrowRequest) => q.student == s && q.status == Approved))
    }

    /** dashboard_view: admins see the totals of the library, students their own. */
    ghost function Dashboard(user: User, today: Day): (d: DashboardView)
      reads this
      ensures d.AdminView? <==> IsAdmin(user)
      ensures d.StudentView? <==> IsStudent(students, user)
      ensures d.NoSummary? <==> !IsAdmin(user) && !IsStudent(students, user)
    {
      if IsAdmin(user) then AdminView(AdminDashboard(today))
      else if IsStudent(students, user) then StudentView(StudentDashboard(ProfileOf(students, user).value, today))
      else NoSummary
    }

    /** report_generation_view's totals. The potential fine, summed over the
        overdue issues, is the fine owed over all unreturned issues, and at
        least one day's fine per overdue issue. */
    function Report(today: Day): (t: ReportTotals)
      reads this
      ensures t.overdue <= t.booksIssued
      ensures t.potentialFine == SumWhere(issues, nextIssue, Unreturned(), FineOn(today))
      ensures t.potentialFine >= FinePerDay * t.overdue
      ensures t.potentialFine >= 0
    {
      OverdueFines(today);
      CountMonotone(issues, nextIssue, Overdue(today), Unreturned());
      SumIgnoresZeros(issues, nextIssue, Overdue(today), Unreturned(), FineOn(today));
      SumAtLeast(issues, nextIssue, Overdue(today), FineOn(today), FinePerDay);
      ReportTotals(
        CountWhere(issues, nextIssue, Unreturned()),
        CountWhere(issues, nextIssue, Overdue(today)),
        SumWhere(issues, nextIssue, Overdue(today), FineOn(today)))
    }
  }

  /** An unreturned issue that owes no fine is not overdue. */
  lemma NoFineMeansNotOverdue(issue: Issue, today: Day)
    requires !issue.isReturned && Fine(issue, today) == 0
    ensures issue.dueDate >= today
  {
  }
}
