/** What each request handler of the application does to the database, as a function
    from the database before the request to the result and the database committed
    after it. The store class in `Library` performs these steps in place. */
module Handlers {
  import opened Models
  import opened Security
  import Accounts
  import Catalog
  import Ledger

  /** A snapshot of the three tables and of the clock. */
  datatype Database = Database(users: seq<User>, books: seq<Book>, loans: seq<Loan>, clock: Timestamp)

  /** A handler's result and the database it leaves behind. */
  datatype Step<T> = Step(result: Result<T>, after: Database)

  /** The table constraints hold of the snapshot. */
  ghost predicate Consistent(db: Database)
  {
    TablesWellFormed(db.users, db.books, db.loans, db.clock)
  }

  /** Copies of book `bookId` the library holds: those on its shelf plus those out on
      loan. Lending and returning move a copy between the two and keep the sum. */
  function Holdings(db: Database, bookId: nat): int
    requires 1 <= bookId <= |db.books|
  {
    db.books[bookId - 1].stock + Ledger.Outstanding(db.loans, bookId)
  }

  // ---------------------------------------------------------------- register

  /** Registration. A taken username is refused; otherwise a member account holding the
      hash of the password is added, and it can log in with that password. */
  function RegisterStep(db: Database, username: string, password: string, salt: nat): (s: Step<User>)
    ensures s.result.Err? <==> Accounts.FindUser(db.users, username).Some?
    ensures s.result.Err? ==> s.result.error == DuplicateUsername && s.after == db
    ensures s.result.Ok? ==>
      var u := s.result.value;
      && s.after == db.(users := db.users + [u], clock := db.clock + 1)
      && u.id == |db.users| + 1 && u.username == username && u.role == DefaultRole
      && u.passwordHash == Hash(password, salt) && u.createdAt == s.after.clock
      && Accounts.Authenticate(s.after.users, username, password) == Ok(u)
  {
    if Accounts.FindUser(db.users, username).Some? then
      Step(Err(DuplicateUsername), db)
    else
      var u := User(|db.users| + 1, username, Hash(password, salt), DefaultRole, db.clock + 1);
      Accounts.LoginAfterRegister(db.users, username, password, salt, db.clock + 1);
      Step(Ok(u), db.(users := db.users + [u], clock := db.clock + 1))
  }

  /** Registration keeps the table constraints, unique usernames among them. */
  lemma RegisterKeepsConsistent(db: Database, username: string, password: string, salt: nat)
    requires Consistent(db)
    ensures Consistent(RegisterStep(db, username, password, salt).after)
  {
  }

  // ---------------------------------------------------------------- add book

  /** Adding a book: one row with the next id and the given fields, newer than every
      other book, so it heads the unfiltered listing; the stock total grows by `stock`. */
  function AddBookStep(db: Database, title: string, author: string, stock: int): (s: Step<Book>)
    ensures s.result.Ok?
    ensures var b := s.result.value;
      && s.after == db.(books := db.books + [b], clock := db.clock + 1)
      && b.id == |db.books| + 1 && b.title == title && b.author == author && b.stock == stock
      && b.createdAt == s.after.clock
      && Catalog.TotalStock(s.after.books) == Catalog.TotalStock(db.books) + stock
      && Catalog.BookList(s.after.books, None)[0] == b
  {
    var b := Book(|db.books| + 1, title, author, stock, db.clock + 1);
    Catalog.TotalStockAppend(db.books, b);
    Step(Ok(b), db.(books := db.books + [b], clock := db.clock + 1))
  }

  /** Adding a book keeps the table constraints, creation order among them. */
  lemma AddBookKeepsConsistent(db: Database, title: string, author: string, stock: int)
    requires Consistent(db)
    ensures Consistent(AddBookStep(db, title, author, stock).after)
  {
    var s := AddBookStep(db, title, author, stock);
    var b := s.result.value;
    assert s.after.books == db.books + [b];
    assert CreatedInOrder(s.after.books);
  }

  // ---------------------------------------------------------------- borrow

  /** Lending a copy of book `bookId` to `borrower`. */
  function BorrowStep(db: Database, bookId: int, borrower: string): (s: Step<Loan>)
    ensures s.result.Ok? <==> 1 <= bookId <= |db.books| && db.books[bookId - 1].stock > 0
    ensures s.result.Err? ==> s.after == db
    ensures s.result == Err(NotFound) <==> !(1 <= bookId <= |db.books|)
    ensures s.result == Err(OutOfStock) <==> 1 <= bookId <= |db.books| && db.books[bookId - 1].stock <= 0
    ensures s.result.Ok? ==>
      var loan := s.result.value;
      && s.after.users == db.users
      && s.after.clock == db.clock + 1
      && s.after.loans == db.loans + [loan]
      && loan.id == |db.loans| + 1 && loan.bookId == bookId && loan.borrowerName == borrower
      && loan.Outstanding() && loan.loanDate == s.after.clock
      && |s.after.books| == |db.books|
      && s.after.books[bookId - 1].stock == db.books[bookId - 1].stock - 1
      && (forall i | 0 <= i < |db.books| && i != bookId - 1 :: s.after.books[i] == db.books[i])
      && s.after.books[bookId - 1] == db.books[bookId - 1].(stock := s.after.books[bookId - 1].stock)
  {
    if !(1 <= bookId <= |db.books|) then
      Step(Err(NotFound), db)
    else if db.books[bookId - 1].stock <= 0 then
      Step(Err(OutOfStock), db)
    else
      var book := db.books[bookId - 1];
      var loan := Loan(|db.loans| + 1, borrower, db.clock + 1, None, bookId);
      Step(Ok(loan), db.(books := db.books[bookId - 1 := book.(stock := book.stock - 1)],
                         loans := db.loans + [loan], clock := db.clock + 1))
  }

  /** Borrowing keeps the table constraints, the foreign key of the new loan among them. */
  lemma BorrowKeepsConsistent(db: Database, bookId: int, borrower: string)
    requires Consistent(db)
    ensures Consistent(BorrowStep(db, bookId, borrower).after)
  {
  }

  /** Borrowing moves a copy from the shelf to the loans: every book's holdings are kept,
      so is the catalog-wide stock plus active loans, and active loans grow by one
      exactly when a loan was made. */
  lemma {:induction false} BorrowKeepsHoldings(db: Database, bookId: int, borrower: string)
    ensures var s := BorrowStep(db, bookId, borrower);
      && (forall id | 1 <= id <= |db.books| :: Holdings(s.after, id) == Holdings(db, id))
      && Catalog.TotalStock(s.after.books) + Ledger.ActiveLoans(s.after.loans)
         == Catalog.TotalStock(db.books) + Ledger.ActiveLoans(db.loans)
      && Ledger.ActiveLoans(s.after.loans) == Ledger.ActiveLoans(db.loans) + (if s.result.Ok? then 1 else 0)
  {
    var s := BorrowStep(db, bookId, borrower);
    if s.result.Ok? {
      var loan := s.result.value;
      var i := bookId - 1;
      assert s.after.books == db.books[i := db.books[i].(stock := db.books[i].stock - 1)];
      forall id | 1 <= id <= |db.books| ensures Holdings(s.after, id) == Holdings(db, id) {
        Ledger.OutstandingAppend(db.loans, loan, id);
      }
      Catalog.TotalStockUpdate(db.books, i, s.after.books[i]);
      Ledger.ActiveLoansAppend(db.loans, loan);
    }
  }

  /** Borrowing never takes a non-negative stock below zero, whatever the other books'
      stocks are. */
  lemma BorrowKeepsStockNonNegative(db: Database, bookId: int, borrower: string)
    ensures var s := BorrowStep(db, bookId, borrower);
      && |s.after.books| == |db.books|
      && forall i | 0 <= i < |db.books| && db.books[i].stock >= 0 :: s.after.books[i].stock >= 0
  {
  }

  // ---------------------------------------------------------------- return

  /** The loan with id `loanId` refers to an existing book, as the foreign key promises. */
  predicate LoanBookExists(db: Database, loanId: int)
  {
    1 <= loanId <= |db.loans| ==> 1 <= db.loans[loanId - 1].bookId <= |db.books|
  }

  /** Returning loan `loanId`. */
  function ReturnStep(db: Database, loanId: int): (s: Step<Loan>)
    requires LoanBookExists(db, loanId)
    ensures s.result == Err(NotFound) <==> !(1 <= loanId <= |db.loans|)
    ensures s.result.Err? ==> s.after == db
    ensures s.result.Ok? ==> 1 <= loanId <= |db.loans| && s.result.value.id == db.loans[loanId - 1].id
    ensures s.result.Ok? ==> !s.result.value.Outstanding()
    ensures 1 <= loanId <= |db.loans| && !db.loans[loanId - 1].Outstanding() ==>
      s == Step(Ok(db.loans[loanId - 1]), db)
    ensures 1 <= loanId <= |db.loans| && db.loans[loanId - 1].Outstanding() ==>
      var loan, k := db.loans[loanId - 1], db.loans[loanId - 1].bookId - 1;
      && s.after.users == db.users
      && s.after.clock == db.clock + 1
      && s.result.value == loan.(returnDate := Some(s.after.clock))
      && s.after.loans == db.loans[loanId - 1 := s.result.value]
      && |s.after.books| == |db.books|
      && s.after.books[k].stock == db.books[k].stock + 1
      && (forall i | 0 <= i < |db.books| && i != k :: s.after.books[i] == db.books[i])
      && s.after.books[k] == db.books[k].(stock := s.after.books[k].stock)
  {
    if !(1 <= loanId <= |db.loans|) then
      Step(Err(NotFound), db)
    else
      var loan := db.loans[loanId - 1];
      if !loan.Outstanding() then
        Step(Ok(loan), db)
      else
        var returned := loan.(returnDate := Some(db.clock + 1));
        var k := loan.bookId - 1;
        Step(Ok(returned), db.(books := db.books[k := db.books[k].(stock := db.books[k].stock + 1)],
                               loans := db.loans[loanId - 1 := returned], clock := db.clock + 1))
  }

  /** Every consistent database meets the precondition of a return. */
  lemma ConsistentLoanBooksExist(db: Database, loanId: int)
    requires Consistent(db)
    ensures LoanBookExists(db, loanId)
  {
  }

  /** Returning keeps the table constraints, return date no earlier than loan date
      among them. */
  lemma ReturnKeepsConsistent(db: Database, loanId: int)
    requires Consistent(db)
    ensures LoanBookExists(db, loanId)
    ensures Consistent(ReturnStep(db, loanId).after)
  {
  }

  /** Returning moves a copy from the loans back to the shelf of the loan's own book:
      every book's holdings are kept, and so is the catalog-wide stock plus active loans. */
  lemma {:induction false} ReturnKeepsHoldings(db: Database, loanId: int)
    requires LoanBookExists(db, loanId)
    ensures var s := ReturnStep(db, loanId);
      && (forall id | 1 <= id <= |db.books| :: Holdings(s.after, id) == Holdings(db, id))
      && Catalog.TotalStock(s.after.books) + Ledger.ActiveLoans(s.after.loans)
         == Catalog.TotalStock(db.books) + Ledger.ActiveLoans(db.loans)
  {
    var s := ReturnStep(db, loanId);
    if 1 <= loanId <= |db.loans| && db.loans[loanId - 1].Outstanding() {
      var j, returned := loanId - 1, s.result.value;
      var k := db.loans[j].bookId - 1;
      assert s.after.books == db.books[k := db.books[k].(stock := db.books[k].stock + 1)];
      forall id | 1 <= id <= |db.books| ensures Holdings(s.after, id) == Holdings(db, id) {
        Ledger.OutstandingUpdate(db.loans, j, returned, id);
      }
      Catalog.TotalStockUpdate(db.books, k, s.after.books[k]);
      Ledger.ActiveLoansUpdate(db.loans, j, returned);
    }
  }

  /** Returning is idempotent: a second return of the same loan reports the same result
      and commits nothing more, so a copy is never restored twice. */
  lemma ReturnIdempotent(db: Database, loanId: int)
    requires LoanBookExists(db, loanId)
    ensures LoanBookExists(ReturnStep(db, loanId).after, loanId)
    ensures ReturnStep(ReturnStep(db, loanId).after, loanId) == ReturnStep(db, loanId)
  {
  }

  // ---------------------------------------------------------------- dashboard

  /** The dashboard figures. */
  datatype Summary = Summary(totalBooks: nat, activeLoans: nat)

  /** The dashboard: how many books the catalog holds and how many loans are out. */
  function Dashboard(db: Database): (s: Summary)
    ensures s.totalBooks == |db.books| && s.activeLoans == Ledger.ActiveLoans(db.loans)
    ensures s.activeLoans <= |db.loans|
    ensures s.activeLoans == 0 <==> forall i | 0 <= i < |db.loans| :: !db.loans[i].Outstanding()
  {
    Summary(|db.books|, Ledger.ActiveLoans(db.loans))
  }

  /** In a consistent database the active-loans figure is the sum, over all books, of
      each book's outstanding loans. */
  lemma DashboardAddsUpByBook(db: Database)
    requires Consistent(db)
    ensures Dashboard(db).activeLoans == Ledger.OutstandingUpTo(db.loans, Dashboard(db).totalBooks)
  {
    Ledger.ActiveLoansByBook(db.loans, |db.books|);
  }
}
