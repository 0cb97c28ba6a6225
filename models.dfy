/** The record shapes of the library database: users, books and loans, each row keyed by
    an auto-incremented integer id starting at 1, and the column constraints that hold
    of a whole table. */
module Models {
  import opened Security

  datatype Option<T> = None | Some(value: T)

  /** The outcomes the request layer turns into a message and a redirect. */
  datatype Error = DuplicateUsername | InvalidCredentials | NotFound | OutOfStock

  datatype Result<T> = Ok(value: T) | Err(error: Error)

  /** A reading of the store's monotone clock; stands for the wall-clock `utcnow`. */
  type Timestamp = nat

  /** The role column: one of 'admin' or 'member'; stored, never checked. */
  datatype Role = Admin | Member

  /** The role column's default. */
  const DefaultRole: Role := Member

  /** A registered account. The username is unique across the table (see `UsernamesUnique`). */
  datatype User = User(id: nat, username: string, passwordHash: PasswordHash, role: Role, createdAt: Timestamp)

  /** A title in the catalog; `stock` is the number of copies on the shelf. */
  datatype Book = Book(id: nat, title: string, author: string, stock: int, createdAt: Timestamp)

  /** One borrowing of one book; `returnDate == None` means "not yet returned". */
  datatype Loan = Loan(id: nat, borrowerName: string, loanDate: Timestamp, returnDate: Option<Timestamp>, bookId: nat)
  {
    predicate Outstanding()
    {
      returnDate.None?
    }
  }

  /** The unique constraint on `username`. */
  predicate UsernamesUnique(users: seq<User>)
  {
    forall i, j | 0 <= i < j < |users| :: users[i].username != users[j].username
  }

  /** Rows are stored in id order and no row was created after `clock`. */
  ghost predicate UsersWellFormed(users: seq<User>, clock: Timestamp)
  {
    && (forall i | 0 <= i < |users| :: users[i].id == i + 1 && users[i].createdAt <= clock)
    && UsernamesUnique(users)
  }

  /** Books were created one after the other: a later id has a later `createdAt`. */
  ghost predicate CreatedInOrder(books: seq<Book>)
  {
    forall i, j | 0 <= i < j < |books| :: books[i].createdAt < books[j].createdAt
  }

  ghost predicate BooksWellFormed(books: seq<Book>, clock: Timestamp)
  {
    && (forall i | 0 <= i < |books| :: books[i].id == i + 1 && books[i].createdAt <= clock)
    && CreatedInOrder(books)
  }

  /** Every loan refers to an existing book (the foreign key) and is returned, if at all,
      no earlier than it was lent. */
  ghost predicate LoanWellFormed(loan: Loan, bookCount: nat, clock: Timestamp)
  {
    && 1 <= loan.bookId <= bookCount
    && loan.loanDate <= clock
    && (loan.returnDate.Some? ==> loan.loanDate <= loan.returnDate.value <= clock)
  }

  ghost predicate LoansWellFormed(loans: seq<Loan>, bookCount: nat, clock: Timestamp)
  {
    forall i | 0 <= i < |loans| :: loans[i].id == i + 1 && LoanWellFormed(loans[i], bookCount, clock)
  }

  /** The constraints of all three tables at clock reading `clock`. */
  ghost predicate TablesWellFormed(users: seq<User>, books: seq<Book>, loans: seq<Loan>, clock: Timestamp)
  {
    UsersWellFormed(users, clock) && BooksWellFormed(books, clock) && LoansWellFormed(loans, |books|, clock)
  }
}
