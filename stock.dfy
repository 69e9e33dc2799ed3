/** The per-book stock balance: a book's available copies plus its copies
    out on loan (unreturned issues) make up its quantity. The handlers keep
    it exactly, except that an edit whose quantity drop is clamped at 0
    leaves the book with more copies than it nominally has; such a book is
    recorded in `clamped`, and for it only "at least" is kept. */
module Stock {
  import opened Models
  import opened Queries

  /** The filter of the issues of book `b` that are still out. */
  function OnLoan(b: BookId): Issue -> bool
  {
    (i: Issue) => i.book == b && !i.isReturned
  }

  /** The copies of book `b` out on loan among the issues with an id below `n`. */
  function CopiesOut(issues: map<nat, Issue>, n: nat, b: BookId): nat
  {
    CountWhere(issues, n, OnLoan(b))
  }

  /** The balance holds for every book. Its quantifier fires only on a
      `CopiesOut` term, so that the handlers, which keep it through the
      lemmas below, do not unfold it for every book they touch. */
  ghost predicate Balanced(books: map<BookId, Book>, issues: map<nat, Issue>, n: nat, clamped: set<BookId>)
  {
    forall b {:trigger CopiesOut(issues, n, b)} :: b in books ==>
      var out := CopiesOut(issues, n, b);
      && books[b].availableCopies + out >= books[b].quantity
      && (b !in clamped ==> books[b].availableCopies + out == books[b].quantity)
      && (books[b].availableCopies < 0 ==> out == 0)
  }

  /** The issues that survive deleting book `b` (its issues go with it). */
  function IssuesWithout(issues: map<nat, Issue>, b: BookId): map<nat, Issue>
  {
    RowsWhere(issues, (i: Issue) => i.book != b)
  }

  /** Adding a book that no issue refers to, with all its copies available, keeps the balance. */
  lemma BalancedAfterAdd(books: map<BookId, Book>, issues: map<nat, Issue>, n: nat, clamped: set<BookId>,
                         id: BookId, book: Book)
    requires Balanced(books, issues, n, clamped)
    requires forall k :: k in issues ==> issues[k].book != id
    requires book.availableCopies == book.quantity
    ensures Balanced(books[id := book], issues, n, clamped)
  {
    CountNone(issues, n, OnLoan(id));
    assert CopiesOut(issues, n, id) == 0;
  }

  /** Lending a copy of a book in stock, recorded as a new issue at id `n`,
      keeps the balance. */
  lemma BalancedAfterLoan(books: map<BookId, Book>, issues: map<nat, Issue>, n: nat, clamped: set<BookId>,
                          b: BookId, x: Issue)
    requires Balanced(books, issues, n, clamped)
    requires b in books && books[b].availableCopies > 0
    requires x.book == b && !x.isReturned
    ensures Balanced(books[b := books[b].(availableCopies := books[b].availableCopies - 1)], issues[n := x], n + 1, clamped)
  {
    forall c | c in books
      ensures CopiesOut(issues[n := x], n + 1, c) == CopiesOut(issues, n, c) + (if c == b then 1 else 0)
    {
      CountAfterInsert(issues, n, OnLoan(c), x);
    }
  }

  /** An issue still out proves its book's available copies are not negative;
      returning it and giving the copy back keeps the balance. */
  lemma BalancedAfterReturn(books: map<BookId, Book>, issues: map<nat, Issue>, n: nat, clamped: set<BookId>,
                            k: nat, y: Issue)
    requires Balanced(books, issues, n, clamped)
    requires k in issues && k < n && issues[k].book in books && !issues[k].isReturned
    requires y.book == issues[k].book && y.isReturned
    ensures books[issues[k].book].availableCopies >= 0
    ensures
      var b := issues[k].book;
      Balanced(books[b := books[b].(availableCopies := books[b].availableCopies + 1)], issues[k := y], n, clamped)
  {
    var b := issues[k].book;
    CountSome(issues, n, OnLoan(b), k);
    assert CopiesOut(issues, n, b) >= 1;
    forall c | c in books
      ensures CopiesOut(issues[k := y], n, c) + (if c == b then 1 else 0) == CopiesOut(issues, n, c)
    {
      CountAfterUpdate(issues, n, OnLoan(c), k, y);
    }
  }

  /** Changing an issue without returning it or moving it to another book keeps the balance. */
  lemma BalancedAfterIssueChange(books: map<BookId, Book>, issues: map<nat, Issue>, n: nat, clamped: set<BookId>,
                                 k: nat, y: Issue)
    requires Balanced(books, issues, n, clamped)
    requires k in issues && k < n
    requires y.book == issues[k].book && y.isReturned == issues[k].isReturned
    ensures Balanced(books, issues[k := y], n, clamped)
  {
    forall c | c in books
      ensures CopiesOut(issues[k := y], n, c) == CopiesOut(issues, n, c)
    {
      CountAfterUpdate(issues, n, OnLoan(c), k, y);
    }
  }

  /** Saving an edit of book `b` keeps the balance exactly when the clamp
      does not fire; when it fires the book is recorded as clamped and
      keeps "at least". */
  lemma BalancedAfterEdit(books: map<BookId, Book>, issues: map<nat, Issue>, n: nat, clamped: set<BookId>,
                          b: BookId, edited: Book)
    requires Balanced(books, issues, n, clamped)
    requires b in books && edited.availableCopies == books[b].availableCopies
    ensures
      var shifted := edited.availableCopies + (edited.quantity - books[b].quantity);
      Balanced(books[b := edited.(availableCopies := AdjustedCopies(Some(books[b]), edited))], issues, n,
               if shifted < 0 then clamped + {b} else clamped)
  {
  }

  /** A book no edit has clamped, with a quantity that is not negative, has
      between 0 and its quantity copies available: the copies out on loan
      make up the rest. */
  lemma WithinQuantity(books: map<BookId, Book>, issues: map<nat, Issue>, n: nat, clamped: set<BookId>,
                       b: BookId)
    requires Balanced(books, issues, n, clamped)
    requires b in books && b !in clamped && books[b].quantity >= 0
    ensures 0 <= books[b].availableCopies <= books[b].quantity
    ensures books[b].availableCopies + CopiesOut(issues, n, b) == books[b].quantity
  {
    assert CopiesOut(issues, n, b) >= 0;
  }

  /** When the clamp fires on a balanced book, the saved book has more copies
      available plus out on loan than its new quantity: the exact balance is
      lost, which is why the book is then recorded as clamped. */
  lemma ClampLeavesSurplus(books: map<BookId, Book>, issues: map<nat, Issue>, n: nat, clamped: set<BookId>,
                           b: BookId, edited: Book)
    requires Balanced(books, issues, n, clamped)
    requires b in books && b !in clamped && edited.availableCopies == books[b].availableCopies
    requires edited.availableCopies + (edited.quantity - books[b].quantity) < 0
    ensures AdjustedCopies(Some(books[b]), edited) + CopiesOut(issues, n, b) > edited.quantity
  {
    assert books[b].availableCopies + CopiesOut(issues, n, b) == books[b].quantity;
  }

  /** Deleting a book along with its issues keeps the balance of every other book. */
  lemma BalancedAfterDelete(books: map<BookId, Book>, issues: map<nat, Issue>, n: nat, clamped: set<BookId>,
                            b: BookId)
    requires Balanced(books, issues, n, clamped)
    ensures Balanced(books - {b}, IssuesWithout(issues, b), n, clamped - {b})
  {
    forall c | c in books && c != b
      ensures CopiesOut(IssuesWithout(issues, b), n, c) == CopiesOut(issues, n, c)
    {
      CountSameSelection(IssuesWithout(issues, b), issues, n, OnLoan(c));
    }
  }
}
