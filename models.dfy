/** Records of the library store and the logic that lives on them:
    the availability bookkeeping of a book save, the overdue fine and the
    days left until an issue falls due. Dates are day numbers, so the
    difference of two dates in days is a subtraction; "today" is always
    passed in. */
module Models {

  type BookId = nat
  type StudentId = nat
  type UserId = nat
  type Day = int

  datatype Option<T> = None | Some(value: T)

  /** The login identity; only the two flags the roles look at. */
  datatype User = User(id: UserId, isStaff: bool, isSuperuser: bool)

  /** A student profile, linked one-to-one with a login identity. */
  datatype Student = Student(user: UserId, name: string, registrationNo: string)

  datatype Book = Book(
    title: string,
    authorName: string,
    isbn: string,
    bookType: string,
    quantity: int,
    availableCopies: int)

  /** The model's default for a new book's available copies (overwritten by the first save). */
  const DefaultAvailableCopies := 1

  datatype Issue = Issue(
    book: BookId,
    student: StudentId,
    issueDate: Day,
    dueDate: Day,
    isReturned: bool,
    returnDate: Option<Day>)

  /** Fine charged per overdue day. */
  const FinePerDay := 10

  datatype Status = Pending | Approved | Rejected | Completed

  /** Width of the status column. */
  const StatusMaxLength := 10

  datatype BorrowRequest = BorrowRequest(
    book: BookId,
    student: StudentId,
    requestDate: Day,
    status: Status)

  /** The stored code of a status (the first element of its choice pair).
      A request created without a status is stored as Pending. */
  function StatusCode(s: Status): (code: string)
    ensures 0 < |code| <= StatusMaxLength
  {
    match s
    case Pending => "Pending"
    case Approved => "Approved"
    case Rejected => "Rejected"
    case Completed => "Completed"
  }

  /** Reads a stored status code back; anything outside the choices is refused. */
  function ParseStatus(code: string): (r: Option<Status>)
    ensures r.Some? ==> StatusCode(r.value) == code
  {
    if code == "Pending" then Some(Pending)
    else if code == "Approved" then Some(Approved)
    else if code == "Rejected" then Some(Rejected)
    else if code == "Completed" then Some(Completed)
    else None
  }

  /** Every status is stored as a code that reads back as itself, and the
      four codes are distinct. */
  lemma StatusRoundTrip(s: Status)
    ensures ParseStatus(StatusCode(s)) == Some(s)
  {
    match s
    case Pending =>
    case Approved =>
    case Rejected =>
    case Completed =>
  }

  /** The available copies a save stores: a new book (no stored row) starts
      with all its copies available; an edited book shifts by the change in
      quantity and is clamped at 0. The result is characterised here as
      the maximum of 0 and the shifted value. */
  function AdjustedCopies(stored: Option<Book>, book: Book): (copies: int)
    ensures stored.None? ==> copies == book.quantity
    ensures stored.Some? ==> copies >= 0
    ensures stored.Some? ==>
      copies >= book.availableCopies + (book.quantity - stored.value.quantity)
    ensures stored.Some? && copies != 0 ==>
      copies == book.availableCopies + (book.quantity - stored.value.quantity)
  {
    if stored.None? then book.quantity
    else
      var shifted := book.availableCopies + (book.quantity - stored.value.quantity);
      if shifted < 0 then 0 else shifted
  }

  /** Book.save: adjusts the available copies of `book` against the row
      stored for it (None when the book is new), step by step. */
  method SaveBook(stored: Option<Book>, book: Book) returns (saved: Book)
    ensures saved == book.(availableCopies := AdjustedCopies(stored, book))
  {
    saved := book;
    if stored.None? {
      saved := saved.(availableCopies := saved.quantity);
    } else {
      var quantityDifference := saved.quantity - stored.value.quantity;
      saved := saved.(availableCopies := saved.availableCopies + quantityDifference);
      if saved.availableCopies < 0 {
        saved := saved.(availableCopies := 0);
      }
    }
  }

  /** A new book gets all its copies available, whatever it was given. */
  lemma NewBookAllAvailable(book: Book, supplied: int)
    ensures AdjustedCopies(None, book.(availableCopies := supplied)) == book.quantity
  {
  }

  /** Saving a book whose quantity did not change keeps a non-negative
      availability as it is; the handlers rely on this after a +1 or -1. */
  lemma SaveKeepsCopies(stored: Book, book: Book)
    requires book.quantity == stored.quantity
    requires book.availableCopies >= 0
    ensures AdjustedCopies(Some(stored), book) == book.availableCopies
  {
  }

  /** The fine of an issue: for a returned issue, the days between due and
      return date; otherwise the days between due date and today; 10 per day,
      and 0 when not late. */
  function Fine(issue: Issue, today: Day): (fine: int)
    ensures fine >= 0
    ensures fine % FinePerDay == 0
  {
    if issue.isReturned then
      if issue.returnDate.Some? && issue.returnDate.value > issue.dueDate then
        (issue.returnDate.value - issue.dueDate) * FinePerDay
      else 0
    else if issue.dueDate < today then
      (today - issue.dueDate) * FinePerDay
    else 0
  }

  /** The three cases in which no fine is owed. */
  lemma NoFineWhenNotLate(issue: Issue, today: Day)
    requires
      || (!issue.isReturned && issue.dueDate >= today)
      || (issue.isReturned && issue.returnDate.Some? && issue.returnDate.value <= issue.dueDate)
      || (issue.isReturned && issue.returnDate.None?)
    ensures Fine(issue, today) == 0
  {
  }

  /** A late return is fined per day between due date and return date, and
      the clock no longer matters. */
  lemma LateReturnFine(issue: Issue, today: Day)
    requires issue.isReturned && issue.returnDate.Some? && issue.returnDate.value > issue.dueDate
    ensures Fine(issue, today) == (issue.returnDate.value - issue.dueDate) * FinePerDay
    ensures Fine(issue, today) > 0
  {
  }

  /** An unreturned issue past its due date is fined per day late, and no
      fine ever drops as the days go by (a returned one stays fixed). */
  lemma OverdueFineGrows(issue: Issue, today: Day, later: Day)
    requires today <= later
    ensures !issue.isReturned && issue.dueDate < today ==>
              Fine(issue, today) == (today - issue.dueDate) * FinePerDay
    ensures Fine(issue, today) <= Fine(issue, later)
    ensures issue.isReturned ==> Fine(issue, today) == Fine(issue, later)
  {
  }

  /** An unreturned issue's fine is fixed by the days left until it is due:
      positive exactly when that count is negative. */
  lemma FineFromDaysUntilDue(issue: Issue, today: Day)
    requires !issue.isReturned
    ensures Fine(issue, today) > 0 <==> DaysUntilDue(issue, today) < 0
    ensures Fine(issue, today) == (if DaysUntilDue(issue, today) < 0 then -DaysUntilDue(issue, today) * FinePerDay else 0)
  {
  }

  /** Returning an issue today does not change what it owes today. */
  lemma ReturnKeepsFine(issue: Issue, today: Day)
    requires !issue.isReturned
    ensures Fine(issue.(isReturned := true, returnDate := Some(today)), today) == Fine(issue, today)
  {
  }

  /** Days left until the issue is due: 0 once it is returned, negative
      when it is overdue. */
  function DaysUntilDue(issue: Issue, today: Day): (days: int)
    ensures issue.isReturned ==> days == 0
    ensures !issue.isReturned ==> today + days == issue.dueDate
  {
    if issue.isReturned then 0 else issue.dueDate - today
  }
}
