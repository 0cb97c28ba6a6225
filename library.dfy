/** The library's store: the users, books and loans tables, updated in place by the
    request handlers. Each method is one committed transaction and performs exactly
    the step that `Handlers` specifies for it. */
module Library {
  import opened Models
  import opened Security
  import Accounts
  import opened Handlers

  class Store {
    var users: seq<User>
    var books: seq<Book>
    var loans: seq<Loan>
    /** The monotone clock: each timestamped write stamps the next reading. */
    var clock: Timestamp

    /** The tables as a value. */
    function Snapshot(): Database
      reads this
    {
      Database(users, books, loans, clock)
    }

    ghost predicate Valid()
      reads this
    {
      Consistent(Snapshot())
    }

    /** An empty database. */
    constructor ()
      ensures Valid()
      ensures Snapshot() == Database([], [], [], 0)
    {
      users, books, loans, clock := [], [], [], 0;
    }

    method Register(username: string, password: string, salt: nat) returns (r: Result<User>)
      requires Valid()
      modifies this
      ensures Valid()
      ensures var s := RegisterStep(old(Snapshot()), username, password, salt);
        r == s.result && Snapshot() == s.after
    {
      RegisterKeepsConsistent(Snapshot(), username, password, salt);
      if Accounts.FindUser(users, username).Some? {
        return Err(DuplicateUsername);
      }
      clock := clock + 1;
      var u := User(|users| + 1, username, Hash(password, salt), DefaultRole, clock);
      users := users + [u];
      r := Ok(u);
    }

    method AddBook(title: string, author: string, stock: int) returns (b: Book)
      requires Valid()
      modifies this
      ensures Valid()
      ensures var s := AddBookStep(old(Snapshot()), title, author, stock);
        Ok(b) == s.result && Snapshot() == s.after
    {
      AddBookKeepsConsistent(Snapshot(), title, author, stock);
      clock := clock + 1;
      b := Book(|books| + 1, title, author, stock, clock);
      books := books + [b];
      assert AddBookStep(old(Snapshot()), title, author, stock) == Step(Ok(b), Snapshot());
    }

    method Borrow(bookId: int, borrower: string) returns (r: Result<Loan>)
      requires Valid()
      modifies this
      ensures Valid()
      ensures var s := BorrowStep(old(Snapshot()), bookId, borrower);
        r == s.result && Snapshot() == s.after
    {
      BorrowKeepsConsistent(Snapshot(), bookId, borrower);
      if !(1 <= bookId <= |books|) {
        return Err(NotFound);
      }
      var book := books[bookId - 1];
      if book.stock <= 0 {
        return Err(OutOfStock);
      }
      clock := clock + 1;
      books := books[bookId - 1 := book.(stock := book.stock - 1)];
      var loan := Loan(|loans| + 1, borrower, clock, None, bookId);
      loans := loans + [loan];
      r := Ok(loan);
    }

    method Return(loanId: int) returns (r: Result<Loan>)
      requires Valid()
      modifies this
      ensures Valid()
      ensures LoanBookExists(old(Snapshot()), loanId)
      ensures var s := ReturnStep(old(Snapshot()), loanId);
        r == s.result && Snapshot() == s.after
    {
      ReturnKeepsConsistent(Snapshot(), loanId);
      if !(1 <= loanId <= |loans|) {
        return Err(NotFound);
      }
      var loan := loans[loanId - 1];
      if !loan.Outstanding() {
        return Ok(loan);
      }
      clock := clock + 1;
      var returned := loan.(returnDate := Some(clock));
      loans := loans[loanId - 1 := returned];
      var book := books[loan.bookId - 1];
      books := books[loan.bookId - 1 := book.(stock := book.stock + 1)];
      r := Ok(returned);
    }
  }
}
