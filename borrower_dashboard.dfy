/**
 * The borrower's dashboard: the available books matching the query, the
 * list of the borrower's loans, and the Borrow and Return buttons.
 */
module BorrowerDashboard {
  import opened Wrappers
  import opened Seqs
  import opened Shelf
  import Home
  import opened SearchBar

  /** A loan runs for 30 days from the day of borrowing. */
  const LoanDays := 30

  /** An entry of `borrowedBooks`: the book, flagged unavailable, with its dates as day numbers. */
  datatype Loan = Loan(book: ShelfBook, borrowedDate: int, dueDate: int)

  /** The page's `books` and `borrowedBooks` state. */
  datatype DashboardState = DashboardState(books: seq<ShelfBook>, borrowedBooks: seq<Loan>)

  /** `filteredBooks`: the available books whose title, author or category contains the query. */
  function DashboardBooks(books: seq<ShelfBook>, query: string): seq<ShelfBook> {
    Filter(books, (b: ShelfBook) => b.available && MatchesQuery(b, query))
  }

  /**
   * The list keeps the catalogue order and holds exactly the available books
   * that match; it is the home page's grid with the unavailable books taken out.
   */
  lemma DashboardBooksSpec(books: seq<ShelfBook>, query: string)
    ensures IsSubseq(DashboardBooks(books, query), books)
    ensures forall b :: b in DashboardBooks(books, query) <==> b in books && b.available && MatchesQuery(b, query)
    ensures DashboardBooks(books, query) == Filter(Home.FilteredBooks(books, query), (b: ShelfBook) => b.available)
  {
    FilterTwice(books, b => MatchesQuery(b, query), (b: ShelfBook) => b.available,
      (b: ShelfBook) => b.available && MatchesQuery(b, query));
  }

  /** The borrow guard: the first book with the id exists and is available. */
  predicate CanBorrow(books: seq<ShelfBook>, id: int) {
    FindBook(books, id).Some? && FindBook(books, id).value.available
  }

  /**
   * `handleBorrow` on the page state: when the book can be borrowed, one loan
   * dated today and due in 30 days is appended and every book with the id
   * becomes unavailable; otherwise nothing changes.
   */
  function Borrow(s: DashboardState, id: int, today: int): (r: DashboardState)
    ensures |r.books| == |s.books|
    ensures !CanBorrow(s.books, id) ==> r == s
    ensures CanBorrow(s.books, id) ==>
      |r.borrowedBooks| == |s.borrowedBooks| + 1 &&
      r.borrowedBooks[..|s.borrowedBooks|] == s.borrowedBooks &&
      r.borrowedBooks[|s.borrowedBooks|] ==
        Loan(FindBook(s.books, id).value.(available := false), today, today + LoanDays)
    ensures CanBorrow(s.books, id) ==> forall i :: 0 <= i < |s.books| ==>
      r.books[i] == if s.books[i].id == id then s.books[i].(available := false) else s.books[i]
  {
    if CanBorrow(s.books, id) then
      var loan := Loan(FindBook(s.books, id).value.(available := false), today, today + LoanDays);
      assert (s.borrowedBooks + [loan])[..|s.borrowedBooks|] == s.borrowedBooks;
      DashboardState(SetAvailable(s.books, id, false), s.borrowedBooks + [loan])
    else s
  }

  /**
   * `handleReturn` on the page state: every loan of the book goes, the other
   * loans stay in order, and every book with the id becomes available.
   */
  function Return(s: DashboardState, id: int): (r: DashboardState)
    ensures |r.books| == |s.books|
    ensures forall i :: 0 <= i < |s.books| ==>
      r.books[i] == if s.books[i].id == id then s.books[i].(available := true) else s.books[i]
    ensures forall l :: l in r.borrowedBooks <==> l in s.borrowedBooks && l.book.id != id
    ensures IsSubseq(r.borrowedBooks, s.borrowedBooks)
    ensures |r.borrowedBooks| == CountIf(s.borrowedBooks, (l: Loan) => l.book.id != id)
  {
    FilterLength(s.borrowedBooks, (l: Loan) => l.book.id != id);
    DashboardState(SetAvailable(s.books, id, true), Filter(s.borrowedBooks, (l: Loan) => l.book.id != id))
  }

  /**
   * Borrowing a book that is not on loan, whose copies under that id are all
   * available, and then returning it restores both lists.
   */
  lemma BorrowThenReturn(s: DashboardState, id: int, today: int)
    requires CanBorrow(s.books, id)
    requires forall b :: b in s.books && b.id == id ==> b.available
    requires forall l :: l in s.borrowedBooks ==> l.book.id != id
    ensures Return(Borrow(s, id, today), id) == s
  {
    var loan := Loan(FindBook(s.books, id).value.(available := false), today, today + LoanDays);
    var notId := (l: Loan) => l.book.id != id;
    FilterAppend(s.borrowedBooks, [loan], notId);
    FilterAll(s.borrowedBooks, notId);
    assert Filter([loan], notId) == [];
    SetAvailableTwice(s.books, id, false, true);
    SetAvailableUnchanged(s.books, id, true);
  }

  /** Once borrowed, no book with that id is offered in the list, whatever the query. */
  lemma BorrowedBookNotListed(s: DashboardState, id: int, today: int, query: string)
    requires CanBorrow(s.books, id)
    ensures forall b :: b in DashboardBooks(Borrow(s, id, today).books, query) ==> b.id != id
  {
    var books := Borrow(s, id, today).books;
    forall b | b in books && b.id == id ensures !b.available {
      var i :| 0 <= i < |books| && books[i] == b;
    }
  }

  /** After a return, every book with that id that matches the query is listed again. */
  lemma ReturnedBookListed(s: DashboardState, id: int, query: string)
    ensures forall b :: b in s.books && b.id == id && MatchesQuery(b, query) ==>
      b.(available := true) in DashboardBooks(Return(s, id).books, query)
  {
    var books := Return(s, id).books;
    forall b | b in s.books && b.id == id && MatchesQuery(b, query)
      ensures b.(available := true) in books
    {
      var i :| 0 <= i < |s.books| && s.books[i] == b;
      assert books[i] == b.(available := true);
    }
  }

  /**
   * As on the home page, once the search bar sends a category the list hides
   * every book whose title, author and category hold no colon.
   */
  lemma CategoryQueryHidesColonFreeBooks(books: seq<ShelfBook>, term: string, category: string)
    requires category != AllCategories
    requires forall b :: b in books ==> LacksChar(b, ':')
    ensures DashboardBooks(books, BuildQuery(term, category)) == []
  {
    DashboardBooksSpec(books, BuildQuery(term, category));
    Home.CategoryQueryHidesColonFreeBooks(books, term, category);
  }

  /** The page component with its two pieces of list state. */
  class DashboardPage {
    var books: seq<ShelfBook>
    var borrowedBooks: seq<Loan>

    function State(): DashboardState
      reads this
    {
      DashboardState(books, borrowedBooks)
    }

    constructor (catalogue: seq<ShelfBook>, loans: seq<Loan>)
      ensures books == catalogue && borrowedBooks == loans
    {
      books := catalogue;
      borrowedBooks := loans;
    }

    /** `handleBorrow(bookId)`, with today's day number passed in. */
    method HandleBorrow(id: int, today: int)
      modifies this
      ensures State() == Borrow(old(State()), id, today)
    {
      var book := FindBook(books, id);
      if book.Some? && book.value.available {
        var borrowed := Loan(book.value.(available := false), today, today + LoanDays);
        borrowedBooks := borrowedBooks + [borrowed];
        books := SetAvailable(books, id, false);
      }
    }

    /** `handleReturn(bookId)`. */
    method HandleReturn(id: int)
      modifies this
      ensures State() == Return(old(State()), id)
    {
      borrowedBooks := Filter(borrowedBooks, (l: Loan) => l.book.id != id);
      books := SetAvailable(books, id, true);
    }
  }
}
