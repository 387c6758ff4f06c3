/**
 * The librarian's catalogue page: the three filters over the book list, the
 * Add Book form, Delete, and the summary cards.
 */
module ManageBooks {
  import opened Wrappers
  import opened Seqs
  import opened Text

  /** A catalogue entry as the librarian pages hold it. */
  datatype CatalogBook = CatalogBook(
    id: int,
    title: string,
    author: string,
    isbn: string,
    category: string,
    publishedYear: Option<int>,
    totalCopies: int,
    availableCopies: int,
    borrowedCopies: int,
    description: string)

  /** The Add Book form after the browser has checked its required number fields. */
  datatype NewBookForm = NewBookForm(
    title: string,
    author: string,
    isbn: string,
    category: string,
    publishedYear: int,
    copies: int,
    description: string)

  /** The category drop-down: 'all' or one category. */
  datatype CategoryFilter = AnyCategory | OnlyCategory(category: string)

  /** The availability drop-down: 'all', 'available' or 'unavailable'. */
  datatype AvailabilityFilter = AnyAvailability | AvailableOnly | UnavailableOnly

  // ---------------------------------------------------------------------------
  // Filters

  /** The search box: title, author and category ignore case; the ISBN does not. */
  predicate BookMatchesSearch(b: CatalogBook, term: string) {
    ContainsIgnoringCase(b.title, term) ||
    ContainsIgnoringCase(b.author, term) ||
    Contains(b.isbn, term) ||
    ContainsIgnoringCase(b.category, term)
  }

  predicate InCategory(b: CatalogBook, f: CategoryFilter) {
    f.AnyCategory? || b.category == f.category
  }

  predicate HasAvailability(b: CatalogBook, f: AvailabilityFilter) {
    match f
    case AnyAvailability => true
    case AvailableOnly => b.availableCopies > 0
    case UnavailableOnly => b.availableCopies == 0
  }

  /** The book passes all three filters. */
  predicate PassesFilters(b: CatalogBook, term: string, cat: CategoryFilter, avail: AvailabilityFilter) {
    BookMatchesSearch(b, term) && InCategory(b, cat) && HasAvailability(b, avail)
  }

  /** The search step: skipped for an empty term. */
  function SearchBooks(books: seq<CatalogBook>, term: string): seq<CatalogBook> {
    if term == "" then books else Filter(books, b => BookMatchesSearch(b, term))
  }

  /** The category step: skipped for 'all'. */
  function CategoryBooks(books: seq<CatalogBook>, cat: CategoryFilter): seq<CatalogBook> {
    if cat.AnyCategory? then books else Filter(books, (b: CatalogBook) => b.category == cat.category)
  }

  /** The availability step: skipped for 'all'. */
  function AvailabilityBooks(books: seq<CatalogBook>, avail: AvailabilityFilter): seq<CatalogBook> {
    match avail
    case AnyAvailability => books
    case AvailableOnly => Filter(books, (b: CatalogBook) => b.availableCopies > 0)
    case UnavailableOnly => Filter(books, (b: CatalogBook) => b.availableCopies == 0)
  }

  /** The filter effect: the three steps one after the other. */
  function FilterBooks(books: seq<CatalogBook>, term: string, cat: CategoryFilter, avail: AvailabilityFilter): seq<CatalogBook> {
    AvailabilityBooks(CategoryBooks(SearchBooks(books, term), cat), avail)
  }

  lemma EmptyTermMatchesBook(b: CatalogBook)
    ensures BookMatchesSearch(b, "")
  {
    assert Lower("") == "";
    EmptyContained(Lower(b.title));
  }

  /** Each step keeps exactly the books its own condition accepts. */
  lemma {:induction false} StepsAreFilters(books: seq<CatalogBook>, term: string, cat: CategoryFilter, avail: AvailabilityFilter)
    ensures SearchBooks(books, term) == Filter(books, b => BookMatchesSearch(b, term))
    ensures CategoryBooks(books, cat) == Filter(books, b => InCategory(b, cat))
    ensures AvailabilityBooks(books, avail) == Filter(books, b => HasAvailability(b, avail))
  {
    if term == "" {
      forall b | b in books ensures BookMatchesSearch(b, term) {
        EmptyTermMatchesBook(b);
      }
      FilterAll(books, b => BookMatchesSearch(b, term));
    }
    if cat.AnyCategory? {
      FilterAll(books, b => InCategory(b, cat));
    } else {
      FilterCongruent(books, (b: CatalogBook) => b.category == cat.category, b => InCategory(b, cat));
    }
    match avail
    case AnyAvailability =>
      FilterAll(books, b => HasAvailability(b, avail));
    case AvailableOnly =>
      FilterCongruent(books, (b: CatalogBook) => b.availableCopies > 0, b => HasAvailability(b, avail));
    case UnavailableOnly =>
      FilterCongruent(books, (b: CatalogBook) => b.availableCopies == 0, b => HasAvailability(b, avail));
  }

  /**
   * The three filters are ANDed: the result keeps, in catalogue order, exactly
   * the books that pass all of them.
   */
  lemma {:induction false} FilterBooksSpec(books: seq<CatalogBook>, term: string, cat: CategoryFilter, avail: AvailabilityFilter)
    ensures FilterBooks(books, term, cat, avail) == Filter(books, b => PassesFilters(b, term, cat, avail))
    ensures forall b :: b in FilterBooks(books, term, cat, avail) <==> b in books && PassesFilters(b, term, cat, avail)
    ensures IsSubseq(FilterBooks(books, term, cat, avail), books)
  {
    var search := (b: CatalogBook) => BookMatchesSearch(b, term);
    var inCat := (b: CatalogBook) => InCategory(b, cat);
    var hasAvail := (b: CatalogBook) => HasAvailability(b, avail);
    var first2 := (b: CatalogBook) => BookMatchesSearch(b, term) && InCategory(b, cat);
    var all3 := (b: CatalogBook) => PassesFilters(b, term, cat, avail);
    StepsAreFilters(books, term, cat, avail);
    var s1 := SearchBooks(books, term);
    StepsAreFilters(s1, term, cat, avail);
    var s2 := CategoryBooks(s1, cat);
    StepsAreFilters(s2, term, cat, avail);
    FilterTwice(books, search, inCat, first2);
    FilterTwice(books, first2, hasAvail, all3);
  }

  /**
   * With no negative counts, 'available' and 'unavailable' split the books
   * that pass the other two filters: no book is in both, and together they
   * hold each such book as often as 'all' does.
   */
  lemma AvailabilityPartition(books: seq<CatalogBook>, term: string, cat: CategoryFilter)
    requires forall b :: b in books ==> b.availableCopies >= 0
    ensures multiset(FilterBooks(books, term, cat, AvailableOnly)) + multiset(FilterBooks(books, term, cat, UnavailableOnly))
      == multiset(FilterBooks(books, term, cat, AnyAvailability))
    ensures forall b :: !(b in FilterBooks(books, term, cat, AvailableOnly) && b in FilterBooks(books, term, cat, UnavailableOnly))
  {
    var s := CategoryBooks(SearchBooks(books, term), cat);
    StepsAreFilters(books, term, cat, AnyAvailability);
    StepsAreFilters(SearchBooks(books, term), term, cat, AnyAvailability);
    FilterPartition(s, (b: CatalogBook) => b.availableCopies > 0, (b: CatalogBook) => b.availableCopies == 0);
  }

  // ---------------------------------------------------------------------------
  // Summary cards

  function AvailableOf(b: CatalogBook): int { b.availableCopies }
  function BorrowedOf(b: CatalogBook): int { b.borrowedCopies }

  /** The "Available Copies" card. */
  function TotalAvailable(books: seq<CatalogBook>): int {
    SumOf(books, AvailableOf)
  }

  /** The "Borrowed Copies" card. */
  function TotalBorrowed(books: seq<CatalogBook>): int {
    SumOf(books, BorrowedOf)
  }

  /** The set of categories in use, collected from the left. */
  function Categories(books: seq<CatalogBook>): (cs: set<string>)
    ensures forall c :: c in cs <==> exists b :: b in books && b.category == c
    ensures |cs| <= |books|
  {
    if books == [] then {}
    else
      var init, last := books[..|books| - 1], books[|books| - 1];
      var rest := Categories(init);
      assert forall b :: b in books <==> b in init || b == last by {
        assert books == init + [last];
      }
      assert |rest + {last.category}| <= |rest| + 1;
      rest + {last.category}
  }

  /** The "Categories" card: how many different categories are in use. */
  function CategoryCount(books: seq<CatalogBook>): nat {
    |Categories(books)|
  }

  // ---------------------------------------------------------------------------
  // Add and Delete

  /** The record `handleAddBook` builds from the form. */
  function NewBook(id: int, form: NewBookForm): CatalogBook {
    CatalogBook(id, form.title, form.author, form.isbn, form.category, Some(form.publishedYear),
                form.copies, form.copies, 0, form.description)
  }

  /** A freshly added book has all its copies on the shelf and none lent out. */
  lemma NewBookCopies(id: int, form: NewBookForm)
    ensures NewBook(id, form).totalCopies == form.copies
    ensures NewBook(id, form).borrowedCopies == 0
    ensures NewBook(id, form).availableCopies == NewBook(id, form).totalCopies - NewBook(id, form).borrowedCopies
  {
  }

  /** The list after a confirmed delete: every book with the id is gone. */
  function WithoutBook(books: seq<CatalogBook>, id: int): seq<CatalogBook> {
    Filter(books, (b: CatalogBook) => b.id != id)
  }

  /** A confirmed delete removes every book with the id and keeps the others in order. */
  lemma WithoutBookSpec(books: seq<CatalogBook>, id: int)
    ensures forall b :: b in WithoutBook(books, id) <==> b in books && b.id != id
    ensures IsSubseq(WithoutBook(books, id), books)
    ensures |WithoutBook(books, id)| == CountIf(books, (b: CatalogBook) => b.id != id)
  {
    FilterLength(books, (b: CatalogBook) => b.id != id);
  }

  /** Adding a book adds its copies to the available total and leaves the borrowed total alone. */
  lemma {:induction false} AddBookTotals(books: seq<CatalogBook>, id: int, form: NewBookForm)
    ensures TotalAvailable(books + [NewBook(id, form)]) == TotalAvailable(books) + form.copies
    ensures TotalBorrowed(books + [NewBook(id, form)]) == TotalBorrowed(books)
  {
    var s := books + [NewBook(id, form)];
    assert s[..|s| - 1] == books;
  }

  /** Adding a book raises the category count by one exactly when its category is new. */
  lemma AddBookCategories(books: seq<CatalogBook>, id: int, form: NewBookForm)
    ensures CategoryCount(books + [NewBook(id, form)]) ==
      if form.category in Categories(books) then CategoryCount(books) else CategoryCount(books) + 1
  {
    var s := books + [NewBook(id, form)];
    var cs := Categories(books);
    assert s[..|s| - 1] == books;
    assert Categories(s) == cs + {form.category};
    if form.category in cs {
      assert cs + {form.category} == cs;
    } else {
      assert |cs + {form.category}| == |cs| + 1;
    }
  }

  /** The copies of the removed books and of the kept books add up to the old totals. */
  lemma DeleteBookTotals(books: seq<CatalogBook>, id: int)
    ensures TotalAvailable(WithoutBook(books, id)) + TotalAvailable(Filter(books, (b: CatalogBook) => b.id == id))
      == TotalAvailable(books)
    ensures TotalBorrowed(WithoutBook(books, id)) + TotalBorrowed(Filter(books, (b: CatalogBook) => b.id == id))
      == TotalBorrowed(books)
  {
    var keep := (b: CatalogBook) => b.id != id;
    var drop := (b: CatalogBook) => b.id == id;
    SumOfPartition(books, keep, drop, AvailableOf);
    SumOfPartition(books, keep, drop, BorrowedOf);
  }

  /** The page's `books` state. */
  class Catalog {
    var books: seq<CatalogBook>

    constructor (initial: seq<CatalogBook>)
      ensures books == initial
    {
      books := initial;
    }

    /** `handleAddBook`: appends one new book; the id stands for `Date.now()`. */
    method AddBook(id: int, form: NewBookForm)
      modifies this
      ensures books == old(books) + [NewBook(id, form)]
    {
      books := books + [NewBook(id, form)];
    }

    /**
     * `handleDeleteBook`: when the confirmation dialog is accepted, drops every
     * book with the id, whatever its borrowed copies; otherwise nothing changes.
     */
    method DeleteBook(id: int, confirmed: bool)
      modifies this
      ensures books == if confirmed then WithoutBook(old(books), id) else old(books)
    {
      if confirmed {
        books := WithoutBook(books, id);
      }
    }
  }
}
