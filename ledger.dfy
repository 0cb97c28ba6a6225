/** The loan ledger's counts: outstanding loans per book and in total (the dashboard
    figure), and how lending or returning one loan changes them. */
module Ledger {
  import opened Models

  /** 1 when `loan` is an outstanding loan of book `bookId`, else 0. */
  function OutstandingOf(loan: Loan, bookId: nat): nat
  {
    if loan.bookId == bookId && loan.Outstanding() then 1 else 0
  }

  /** Number of loans of book `bookId` that have not been returned. */
  function Outstanding(loans: seq<Loan>, bookId: nat): (n: nat)
    ensures n <= |loans|
  {
    if loans == [] then 0 else OutstandingOf(loans[0], bookId) + Outstanding(loans[1..], bookId)
  }

  /** Number of loans, of any book, that have not been returned. */
  function ActiveLoans(loans: seq<Loan>): (n: nat)
    ensures n <= |loans|
    ensures n == 0 <==> forall i | 0 <= i < |loans| :: !loans[i].Outstanding()
  {
    if loans == [] then 0 else (if loans[0].Outstanding() then 1 else 0) + ActiveLoans(loans[1..])
  }

  /** A new loan adds one to its book's count when it is outstanding. */
  lemma {:induction false} OutstandingAppend(loans: seq<Loan>, loan: Loan, bookId: nat)
    ensures Outstanding(loans + [loan], bookId) == Outstanding(loans, bookId) + OutstandingOf(loan, bookId)
  {
    if loans != [] {
      assert (loans + [loan])[1..] == loans[1..] + [loan];
      OutstandingAppend(loans[1..], loan, bookId);
    }
  }

  /** Replacing one loan record changes a book's count by the difference of the two. */
  lemma {:induction false} OutstandingUpdate(loans: seq<Loan>, i: nat, loan: Loan, bookId: nat)
    requires i < |loans|
    ensures Outstanding(loans[i := loan], bookId)
      == Outstanding(loans, bookId) - OutstandingOf(loans[i], bookId) + OutstandingOf(loan, bookId)
  {
    if i > 0 {
      assert loans[i := loan][1..] == loans[1..][i - 1 := loan];
      OutstandingUpdate(loans[1..], i - 1, loan, bookId);
    }
  }

  /** A new outstanding loan adds one to the dashboard count. */
  lemma {:induction false} ActiveLoansAppend(loans: seq<Loan>, loan: Loan)
    ensures ActiveLoans(loans + [loan]) == ActiveLoans(loans) + (if loan.Outstanding() then 1 else 0)
  {
    if loans != [] {
      assert (loans + [loan])[1..] == loans[1..] + [loan];
      ActiveLoansAppend(loans[1..], loan);
    }
  }

  /** Replacing one loan record changes the dashboard count by the difference. */
  lemma {:induction false} ActiveLoansUpdate(loans: seq<Loan>, i: nat, loan: Loan)
    requires i < |loans|
    ensures ActiveLoans(loans[i := loan])
      == ActiveLoans(loans) - (if loans[i].Outstanding() then 1 else 0) + (if loan.Outstanding() then 1 else 0)
  {
    if i > 0 {
      assert loans[i := loan][1..] == loans[1..][i - 1 := loan];
      ActiveLoansUpdate(loans[1..], i - 1, loan);
    }
  }

  /** Outstanding loans summed over the books with ids 1 to `n`. */
  function OutstandingUpTo(loans: seq<Loan>, n: nat): nat
  {
    if n == 0 then 0 else OutstandingUpTo(loans, n - 1) + Outstanding(loans, n)
  }

  /** Summing one loan's indicator over the book ids 1 to `n` counts it once when it is
      outstanding and refers to one of those books. */
  lemma {:induction false} OneLoanOverBooks(loan: Loan, loans: seq<Loan>, n: nat)
    requires loans != [] && loans[0] == loan
    ensures OutstandingUpTo(loans, n)
      == OutstandingUpTo(loans[1..], n) + (if loan.Outstanding() && 1 <= loan.bookId <= n then 1 else 0)
  {
    if n > 0 {
      OneLoanOverBooks(loan, loans, n - 1);
    }
  }

  /** The dashboard's count of active loans is the sum, over all books, of each book's
      outstanding loans, as long as every loan refers to an existing book. */
  lemma {:induction false} ActiveLoansByBook(loans: seq<Loan>, bookCount: nat)
    requires forall i | 0 <= i < |loans| :: 1 <= loans[i].bookId <= bookCount
    ensures OutstandingUpTo(loans, bookCount) == ActiveLoans(loans)
  {
    if loans == [] {
      ZeroOverBooks(bookCount);
    } else {
      OneLoanOverBooks(loans[0], loans, bookCount);
      ActiveLoansByBook(loans[1..], bookCount);
    }
  }

  /** With no loans, every book's outstanding count sums to zero. */
  lemma {:induction false} ZeroOverBooks(n: nat)
    ensures OutstandingUpTo([], n) == 0
  {
    if n > 0 {
      ZeroOverBooks(n - 1);
    }
  }
}
