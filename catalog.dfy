/** The catalog's queries: the book listing with its case-insensitive search, newest
    first, and the total number of copies on the shelves. */
module Catalog {
  import opened Models

  /** ASCII lower-casing; every other character is left as it is. */
  function Lower(c: char): char
  {
    if 'A' <= c <= 'Z' then (c as int + 32) as char else c
  }

  function LowerAll(s: string): (r: string)
    ensures |r| == |s|
  {
    seq(|s|, i requires 0 <= i < |s| => Lower(s[i]))
  }

  /** `query` occurs in `text` at position `i` once both are lower-cased. */
  predicate MatchesAt(text: string, query: string, i: int)
  {
    0 <= i <= |text| - |query| && LowerAll(text[i..i + |query|]) == LowerAll(query)
  }

  /** `text` holds `query` as a substring once both are lower-cased. */
  predicate ContainsIgnoringCase(text: string, query: string)
  {
    exists i | 0 <= i <= |text| - |query| :: MatchesAt(text, query, i)
  }

  /** The search filter: a book is listed when there is no query, when the query is
      empty, or when its title or its author contains the query ignoring case. */
  predicate Selected(b: Book, query: Option<string>)
  {
    match query
    case None => true
    case Some(q) => q == "" || ContainsIgnoringCase(b.title, q) || ContainsIgnoringCase(b.author, q)
  }

  /** The book listing: the selected books, walking the table from its newest row back
      to its oldest. */
  function BookList(books: seq<Book>, query: Option<string>): (r: seq<Book>)
    ensures forall b :: b in r <==> b in books && Selected(b, query)
    ensures |r| <= |books|
    ensures (forall b | b in books :: Selected(b, query)) ==> |r| == |books|
  {
    if books == [] then []
    else
      var last := books[|books| - 1];
      assert books == books[..|books| - 1] + [last];
      (if Selected(last, query) then [last] else []) + BookList(books[..|books| - 1], query)
  }

  /** With no query, or an empty one, every book is listed. */
  lemma ListAllWithoutQuery(books: seq<Book>, query: Option<string>)
    requires query.None? || query == Some("")
    ensures |BookList(books, query)| == |books|
    ensures forall b | b in books :: b in BookList(books, query)
  {
  }

  /** Strictly decreasing creation times: newest first, no book twice. */
  predicate NewestFirst(r: seq<Book>)
  {
    forall i, j | 0 <= i < j < |r| :: r[i].createdAt > r[j].createdAt
  }

  /** When the books were created in id order, the listing is ordered by creation time,
      newest first, and so holds each book once. */
  lemma {:induction false} BookListNewestFirst(books: seq<Book>, query: Option<string>)
    requires CreatedInOrder(books)
    ensures NewestFirst(BookList(books, query))
  {
    if books != [] {
      var n := |books| - 1;
      var older := books[..n];
      assert CreatedInOrder(older);
      BookListNewestFirst(older, query);
      if Selected(books[n], query) {
        OlderRowsAreOlder(books);
        PrependNewest(books[n], BookList(older, query), older);
      }
    }
  }

  lemma OlderRowsAreOlder(books: seq<Book>)
    requires CreatedInOrder(books) && books != []
    ensures forall b | b in books[..|books| - 1] :: b.createdAt < books[|books| - 1].createdAt
  {
  }

  lemma PrependNewest(newest: Book, rest: seq<Book>, older: seq<Book>)
    requires NewestFirst(rest)
    requires forall b | b in rest :: b in older
    requires forall b | b in older :: b.createdAt < newest.createdAt
    ensures NewestFirst([newest] + rest)
  {
  }

  /** The search matches the query in any letter case: "smith" finds the author
      "Smith, J." and the title "SMITHsonian", and does not find "Jones". */
  lemma SearchIgnoresCase()
    ensures ContainsIgnoringCase("Smith, J.", "smith")
    ensures ContainsIgnoringCase("SMITHsonian", "smith")
    ensures !ContainsIgnoringCase("Jones", "smith")
  {
    assert MatchesAt("Smith, J.", "smith", 0);
    assert MatchesAt("SMITHsonian", "smith", 0);
    assert LowerAll("Jones"[0..5])[0] != LowerAll("smith")[0];
  }

  /** Whether a query matches does not depend on the letter case of the query or of
      the text. */
  lemma {:induction false} ContainsIgnoringCaseOfLowered(text: string, query: string)
    ensures ContainsIgnoringCase(text, query) <==> ContainsIgnoringCase(LowerAll(text), LowerAll(query))
  {
    var lt, lq := LowerAll(text), LowerAll(query);
    forall i | 0 <= i <= |text| - |query|
      ensures MatchesAt(text, query, i) <==> MatchesAt(lt, lq, i)
    {
      LowerIdempotent(query);
      assert lt[i..i + |query|] == LowerAll(text[i..i + |query|]);
      LowerIdempotent(text[i..i + |query|]);
    }
  }

  lemma LowerIdempotent(s: string)
    ensures LowerAll(LowerAll(s)) == LowerAll(s)
  {
  }

  /** Copies on the shelves, summed over the whole catalog. */
  function TotalStock(books: seq<Book>): int
  {
    if books == [] then 0 else books[0].stock + TotalStock(books[1..])
  }

  /** Changing one book's stock changes the total by the same amount. */
  lemma {:induction false} TotalStockUpdate(books: seq<Book>, i: nat, b: Book)
    requires i < |books|
    ensures TotalStock(books[i := b]) == TotalStock(books) - books[i].stock + b.stock
  {
    if i > 0 {
      assert books[i := b][1..] == books[1..][i - 1 := b];
      TotalStockUpdate(books[1..], i - 1, b);
    }
  }

  /** Adding a book adds its stock to the total. */
  lemma {:induction false} TotalStockAppend(books: seq<Book>, b: Book)
    ensures TotalStock(books + [b]) == TotalStock(books) + b.stock
  {
    if books != [] {
      assert (books + [b])[1..] == books[1..] + [b];
      TotalStockAppend(books[1..], b);
    }
  }
}
