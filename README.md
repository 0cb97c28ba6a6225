# Library store: a Dafny model

This project models the transactional core of a small library-management web
application. There is one database with three tables:

- users (accounts that may log in),
- books (the catalog, each with a count of copies on the shelf),
- loans (one row per lending of a copy; an empty return date means the copy is still out).

The operations on it are:

- registration, which refuses a taken username and stores a hash of the password;
- the login credential check;
- adding a book;
- borrowing, guarded by `stock > 0`;
- returning, guarded by "not yet returned";
- the book listing with its case-insensitive search, newest first;
- the dashboard counts.

Layout, one module per file:

- `security.dfy` (`Security`): the stored credential and the hash/verify pair.
- `models.dfy` (`Models`): the record shapes of `models.py`. `User`, `Book` and `Loan`
  are datatypes, and the constraints on a whole table are predicates. Two come from
  the schema: unique usernames and loans referring to existing books (the foreign
  key). The others come from the auto-increment and the monotone clock: ids in insertion
  order, `created_at` in id order, and return date no earlier than loan date. Also
  `Option`, `Result` and the error kinds.
- `accounts.dfy` (`Accounts`): username lookup and the login check.
- `catalog.dfy` (`Catalog`): the search filter, the listing and the stock total.
- `ledger.dfy` (`Ledger`): outstanding-loan counts per book and in total.
- `handlers.dfy` (`Handlers`): each state-changing request handler as a function from
  a database snapshot to its result and the snapshot it commits (`RegisterStep`,
  `AddBookStep`, `BorrowStep`, `ReturnStep`). It also holds the dashboard, and the
  lemmas about these steps: preserved constraints, conservation and idempotence.
- `library.dfy` (`Library`): the class `Store`. Its fields are the three tables, held
  as sequences, and a monotone clock. Its methods `Register`, `AddBook`, `Borrow` and
  `Return` update those fields in place, as the handlers do. Each method keeps
  `Valid()` and leaves the store, and returns the result, that its step function
  gives for the old state.

Boundaries are abstracted:

- Row ids are auto-incremented from 1, so the row with id `k` sits at position `k - 1`.
  Tables only grow, because no operation of the core deletes a row.
- `datetime.utcnow()` is the store's `clock`. Each timestamped write advances it by one
  and stamps the new value.
- `generate_password_hash` / `check_password_hash` are `Security.Hash` / `Security.Verify`.
  The random salt is a parameter. The derivation's body is a stand-in. The proofs use
  only `Verify(Hash(p, s), p)` and never compare a password with the stored hash
  directly. `Security.VerifyRejectsOtherPasswords` states that a stored credential
  rejects every other password; no other proof relies on it.
- `get_or_404` is the `NotFound` error result.

`Store.Valid()` is `Handlers.Consistent`. Two of its parts are column constraints of
`models.py`:

- usernames are unique and non-null;
- every loan's `book_id` names an existing book.

The other two follow from the monotone clock that stands for `utcnow`, not from the
schema:

- a return date is never before its loan date;
- `created_at` grows with the id.

Every step keeps it. Borrowing and returning also keep, for every book, the copies
on the shelf plus its outstanding loans (`Handlers.Holdings`). They keep the
catalog-wide total of stock plus active loans too.

Two behaviours of the code are worth stating, and the model follows them:

- `add_book` does not reject a negative stock. So `stock >= 0` is not an invariant.
  Instead, borrowing never takes a non-negative stock below zero, and a book with
  stock `<= 0` (not only `== 0`) is out of stock.
- `register` does not reject empty fields. It checks only that the username is not
  taken, so an empty username or password is accepted.

## Model

| member | source | states |
|---|---|---|
| `Security.Hash` | app.py:63 | The stored credential records the salt and verifies against the password it was made from. Its type is not a string, so the plaintext is never stored |
| `Security.VerifyMatchesHash` | app.py:88 | `check_password_hash` accepts a password exactly when hashing it with the stored salt reproduces the stored credential |
| `Security.VerifyRejectsOtherPasswords` | app.py:88 | The credential stored for one password verifies that password and rejects every other one |
| `Accounts.FindUser` | app.py:85 | The lookup by exact username finds the first row holding that name, or reports that no row holds it |
| `Accounts.Authenticate` | app.py:85-96 | Login succeeds only with a stored user of that exact username whose hash verifies the password. An unknown user and a wrong password both give the same `InvalidCredentials` |
| `Accounts.AuthenticateExactly` | app.py:88 | Under the unique-username constraint, login succeeds if and only if some user has that username and a hash that verifies the password |
| `Accounts.LoginAfterRegister` | app.py:63-66 | After registering a free username with a password, logging in with the same name and password returns exactly the new account |
| `Handlers.RegisterStep` | app.py:58-68 | Registration fails exactly when the username is taken, and then with `DuplicateUsername` and no change. Otherwise it appends exactly one user: next id, that username, role `member`, the hash of the password, stamped with the new clock reading, which is later than every earlier row. Only the users table and the clock change, and that user can then log in with that password |
| `Handlers.RegisterKeepsConsistent` | models.py:14-16 | Registration keeps every table constraint, unique usernames among them |
| `Handlers.AddBookStep` | app.py:138-144 | Adding a book appends exactly one row: next id, the given title, author and stock, stamped with the new clock reading, so newer than every other book. Nothing else changes but the clock. The total stock grows by that stock, and the new book heads the unfiltered listing |
| `Handlers.AddBookKeepsConsistent` | app.py:142-144 | Adding a book keeps every table constraint, creation order among them |
| `Handlers.BorrowStep` | app.py:160-173 | A borrow succeeds exactly when the book exists and its stock is positive. The result is `NotFound` exactly when the book id is missing and `OutOfStock` exactly when its stock is not positive, both with no change. Otherwise that book loses exactly one copy and other books are unchanged. Exactly one loan is appended: next id, that book, that borrower, stamped with the new clock reading, not returned. Users are untouched |
| `Handlers.BorrowKeepsConsistent` | models.py:46 | Borrowing keeps every table constraint, the new loan's foreign key among them |
| `Handlers.BorrowKeepsHoldings` | app.py:164-168 | For every book, shelf stock plus outstanding loans is the same before and after borrowing. So is the catalog-wide stock plus active loans, and active loans rise by one exactly when the borrow succeeds |
| `Handlers.BorrowKeepsStockNonNegative` | app.py:164-165 | In any database, negative stocks included, borrowing leaves every book whose stock was non-negative with a non-negative stock |
| `Handlers.ReturnStep` | app.py:180-184 | A missing loan id gives `NotFound` with no change. An already returned loan is reported as it is, with no change. Otherwise only that loan changes: its return date is the new clock reading. Only its own book gains exactly one copy. Users are untouched. Every successful call leaves the loan returned |
| `Handlers.ConsistentLoanBooksExist` | models.py:46 | In a consistent database every loan's book exists, so a return can always find the book to restock |
| `Handlers.ReturnKeepsConsistent` | app.py:181-184 | Returning keeps every table constraint, return date not before loan date among them |
| `Handlers.ReturnKeepsHoldings` | app.py:181-183 | For every book, shelf stock plus outstanding loans is the same before and after returning. So is the catalog-wide stock plus active loans |
| `Handlers.ReturnIdempotent` | app.py:181 | Returning the same loan a second time gives the same result and commits nothing more, so no copy is restored twice |
| `Handlers.Dashboard` | app.py:116-117 | The total is the number of book rows and the active figure counts unreturned loans. The active figure is at most the number of loans, and zero exactly when all loans are returned |
| `Handlers.DashboardAddsUpByBook` | app.py:117 | In a consistent database the active-loan figure is the sum, over all books, of their outstanding loans |
| `Library.Store.Register` | app.py:58-68 | The store's tables and clock become exactly what `RegisterStep` commits, the method returns its result, and `Valid()` is kept |
| `Library.Store.AddBook` | app.py:138-144 | The store's tables and clock become exactly what `AddBookStep` commits, the method returns the new book, and `Valid()` is kept |
| `Library.Store.Borrow` | app.py:160-173 | The store's tables and clock become exactly what `BorrowStep` commits, the method returns its result, and `Valid()` is kept |
| `Library.Store.Return` | app.py:180-184 | The store's tables and clock become exactly what `ReturnStep` commits, the method returns its result, and `Valid()` is kept |
| `Catalog.BookList` | app.py:123-130 | The listing holds exactly the books that are selected: every book when the query is absent or empty, otherwise the books whose title or author contains it. It is never longer than the table |
| `Catalog.ListAllWithoutQuery` | app.py:129-130 | With no query or an empty one, every book is listed |
| `Catalog.BookListNewestFirst` | app.py:128 | The listing is ordered by `created_at`, newest first, strictly, so no book appears twice |
| `Catalog.SearchIgnoresCase` | app.py:127 | The query "smith" matches the author "Smith, J." and the title "SMITHsonian" and does not match "Jones" |
| `Catalog.ContainsIgnoringCaseOfLowered` | app.py:125-127 | Whether a query matches does not depend on the letter case of the query or of the text |
| `Catalog.TotalStockUpdate` | app.py:165 | Changing one book's stock changes the catalog's total stock by the same amount |
| `Catalog.TotalStockAppend` | app.py:142-143 | Adding a book adds its stock to the total |
| `Ledger.ActiveLoans` | app.py:117 | The number of loans without a return date is at most the number of loans, and it is zero exactly when every loan has been returned |
| `Ledger.OutstandingAppend` | app.py:166-167 | Appending a loan raises its own book's outstanding count by one when the loan is unreturned, and leaves every other book's count as it was |
| `Ledger.OutstandingUpdate` | app.py:182 | Replacing one loan row changes a book's outstanding count by the difference the old and the new row make to it |
| `Ledger.ActiveLoansAppend` | app.py:167 | Appending an unreturned loan raises the active-loan count by one |
| `Ledger.ActiveLoansUpdate` | app.py:182 | Replacing one loan row changes the active-loan count by the difference, so marking a loan returned lowers it by one |
| `Ledger.ActiveLoansByBook` | models.py:46 | When every loan's `book_id` names a book, the count of active loans is the sum over books of each book's outstanding loans |

## Left out

- HTTP and page handling: routing, templates, flash messages, redirects and the `next`
  parameter after login. So are the GET branches that only render a form.
- The login session: `LoginManager`, `load_user`, `login_user`, `logout_user`, `logout`,
  and the `current_user.is_authenticated` redirects in `register` and `login`. So is
  every `login_required` guard. The operations are modelled as called by an
  authenticated request.
- Werkzeug's hashing algorithm: `Security.Derive` stands in for it. It is injective but
  not one-way. No lemma depends on its body beyond `Verify(Hash(p, s), p)` and
  `Security.VerifyRejectsOtherPasswords`.
- Form fields that are missing. A missing username, title, author or borrower name
  reaches the database as NULL and fails the NOT NULL constraint on commit. A missing
  password never reaches the database: `generate_password_hash` raises on it during
  registration. At login, `check_password_hash` raises on it once the username is
  found, so the request fails with a server error, not with `InvalidCredentials`. A
  missing stock or one that is not an integer makes `int()` raise. The model takes
  present strings and an integer stock, and none of these failures is modelled.
- Column length limits (`String(100)`, `String(200)`, `String(20)`): not every database
  enforces them.
- `Catalog.BookList`: it uses plain substring matching with ASCII case folding. `%` and
  `_` in the query act as SQL wildcards in `ILIKE` and are not modelled. Neither is
  database-specific Unicode case folding.
- `Catalog.BookListNewestFirst`: equal `created_at` values cannot occur, because the
  clock advances on every write. Real wall-clock stamps may tie, and the database then
  orders ties arbitrarily.
- `utcnow` wall-clock values: replaced by the monotone counter. A real clock can step
  back, and then a return date can precede its loan date and `created_at` can fall
  as the id grows. `Handlers.AddBookKeepsConsistent`, `Handlers.ReturnKeepsConsistent`
  and `Catalog.BookListNewestFirst` rely on the counter for those two facts.
- Integer width of the `stock` column: the model's stock is an unbounded integer.
  The `Integer` column is 64-bit on SQLite, the default database, and 32-bit on
  Postgres. A value outside that range fails when the change is committed.
  `Handlers.AddBookStep` still succeeds for any stock and `Handlers.ReturnStep` for any
  increment. That failure is not modelled.
- `Security.VerifyRejectsOtherPasswords`: a real password hash can collide in
  principle, so the real library rejects other passwords only with overwhelming
  probability. The stand-in derivation is injective, so the lemma holds exactly. The
  stand-in is also not one-way.
- Concurrency between requests and the database's transaction isolation. Each method
  is one atomic step.
- The loan listing (`loan_list`, ordered by loan date) and configuration and
  environment loading are not part of this model.
- `Handlers.ReturnStep`: it requires the loan's book to exist, which is the loan's
  foreign key. `Handlers.ConsistentLoanBooksExist` shows that every consistent store
  meets this. A dangling key would make the application fail while restocking, and
  that failure is not modelled.
