/**
 * The public home page: the book grid filtered by the query the search bar
 * hands over.
 */
module Home {
  import opened Seqs
  import opened Text
  import opened Shelf
  import opened SearchBar

  /** The books of the home page's catalogue. */
  const GreatGatsby := ShelfBook(1, "The Great Gatsby", "F. Scott Fitzgerald", "978-0743273565", "Fiction", true)
  const Mockingbird := ShelfBook(2, "To Kill a Mockingbird", "Harper Lee", "978-0446310789", "Fiction", true)
  const NineteenEightyFour := ShelfBook(3, "1984", "George Orwell", "978-0451524935", "Dystopian", false)
  const PrideAndPrejudice := ShelfBook(4, "Pride and Prejudice", "Jane Austen", "978-0141439518", "Romance", true)

  /** The home page's catalogue. */
  const Catalogue: seq<ShelfBook> := [GreatGatsby, Mockingbird, NineteenEightyFour, PrideAndPrejudice]

  // One lemma per book keeps each check of the literal strings small.
  lemma GreatGatsbyNoColon() ensures LacksChar(GreatGatsby, ':') {}
  lemma MockingbirdNoColon() ensures LacksChar(Mockingbird, ':') {}
  lemma NineteenEightyFourNoColon() ensures LacksChar(NineteenEightyFour, ':') {}
  lemma PrideAndPrejudiceNoColon() ensures LacksChar(PrideAndPrejudice, ':') {}

  /** No title, author or category of the catalogue holds a colon. */
  lemma CatalogueHasNoColon()
    ensures forall b :: b in Catalogue ==> LacksChar(b, ':')
  {
    GreatGatsbyNoColon();
    MockingbirdNoColon();
    NineteenEightyFourNoColon();
    PrideAndPrejudiceNoColon();
  }

  /** The grid: the books whose title, author or category contains the query. */
  function FilteredBooks(books: seq<ShelfBook>, query: string): seq<ShelfBook> {
    Filter(books, b => MatchesQuery(b, query))
  }

  /**
   * The grid keeps the catalogue order and shows exactly the books whose
   * title, author or category contains the query, ignoring case, each as
   * often as the catalogue holds it.
   */
  lemma FilteredBooksSpec(books: seq<ShelfBook>, query: string)
    ensures IsSubseq(FilteredBooks(books, query), books)
    ensures forall b :: b in FilteredBooks(books, query) <==> b in books && MatchesQuery(b, query)
    ensures |FilteredBooks(books, query)| == CountIf(books, b => MatchesQuery(b, query))
  {
    FilterLength(books, b => MatchesQuery(b, query));
  }

  /** With an empty query the grid shows the whole catalogue. */
  lemma EmptyQueryShowsAll(books: seq<ShelfBook>)
    ensures FilteredBooks(books, "") == books
  {
    forall b | b in books ensures MatchesQuery(b, "") {
      EmptyQueryMatches(b);
    }
    FilterAll(books, b => MatchesQuery(b, ""));
  }

  /**
   * Availability plays no part: flipping the `available` flag of the books
   * with some id before filtering is the same as flipping it afterwards.
   */
  lemma {:induction false} AvailabilityIgnored(books: seq<ShelfBook>, query: string, id: int, v: bool)
    ensures FilteredBooks(SetAvailable(books, id, v), query) == SetAvailable(FilteredBooks(books, query), id, v)
  {
    if books != [] {
      var b, tail := books[0], books[1..];
      var b' := SetAvailable([b], id, v)[0];
      AvailabilityIgnored(tail, query, id, v);
      assert books == [b] + tail;
      SetAvailableAppend([b], tail, id, v);
      assert MatchesQuery(b', query) == MatchesQuery(b, query);
      var rest := FilteredBooks(tail, query);
      if MatchesQuery(b, query) {
        assert FilteredBooks(books, query) == [b] + rest;
        SetAvailableAppend([b], rest, id, v);
      }
    }
  }

  /** The ISBN is not searched: changing a book's ISBN never changes whether it matches. */
  lemma IsbnNotSearched(b: ShelfBook, isbn: string, query: string)
    ensures MatchesQuery(b.(isbn := isbn), query) == MatchesQuery(b, query)
  {
  }

  // ---------------------------------------------------------------------------
  // The search bar invites a search by ISBN

  /**
   * As written: searching for the full ISBN of "1984" does not show it, as
   * its title, author and category hold no hyphen.
   */
  lemma IsbnQueryFindsNothing()
    ensures NineteenEightyFour in Catalogue
    ensures NineteenEightyFour !in FilteredBooks(Catalogue, NineteenEightyFour.isbn)
  {
    var q := NineteenEightyFour.isbn;
    assert q[3] == '-';
    assert LacksChar(NineteenEightyFour, '-');
    MissingCharNotMatched(NineteenEightyFour, q, '-');
  }

  /**
   * Corrected match: the title, author or category contains the query
   * ignoring case, or the ISBN contains it as typed, as the librarian pages
   * search it.
   */
  predicate MatchesQueryOrIsbn(b: ShelfBook, query: string) {
    MatchesQuery(b, query) || Contains(b.isbn, query)
  }

  /** Corrected grid: the books matching by title, author, category or ISBN, in catalogue order. */
  function SearchWithIsbn(books: seq<ShelfBook>, query: string): (r: seq<ShelfBook>)
    ensures IsSubseq(r, books)
    ensures forall b :: b in r <==> b in books && MatchesQueryOrIsbn(b, query)
    ensures |r| == CountIf(books, b => MatchesQueryOrIsbn(b, query))
  {
    FilterLength(books, b => MatchesQueryOrIsbn(b, query));
    Filter(books, b => MatchesQueryOrIsbn(b, query))
  }

  /**
   * The corrected grid finds every book by its full ISBN, and shows every
   * book the page's grid shows.
   */
  lemma IsbnFound(books: seq<ShelfBook>, b: ShelfBook, query: string)
    requires b in books
    ensures b in SearchWithIsbn(books, b.isbn)
    ensures b in FilteredBooks(books, query) ==> b in SearchWithIsbn(books, query)
  {
    ContainsSelf(b.isbn);
  }

  // ---------------------------------------------------------------------------
  // The search bar's category reaches this filter as text

  /**
   * As written: once a category is picked, the query carries ` category:<cat>`,
   * and a book is shown only if its title, author or category contains that
   * text, ignoring case.
   */
  lemma CategoryQueryNeedsTag(b: ShelfBook, term: string, category: string)
    requires category != AllCategories
    ensures MatchesQuery(b, BuildQuery(term, category)) ==> MatchesQuery(b, CategoryTag + category)
  {
    var q := BuildQuery(term, category);
    var tail := CategoryTag + category;
    assert q == term + tail;
    LowerAppend(term, tail);
    if ContainsIgnoringCase(b.title, q) {
      ContainsSuffix(Lower(b.title), Lower(term), Lower(tail));
    }
    if ContainsIgnoringCase(b.author, q) {
      ContainsSuffix(Lower(b.author), Lower(term), Lower(tail));
    }
    if ContainsIgnoringCase(b.category, q) {
      ContainsSuffix(Lower(b.category), Lower(term), Lower(tail));
    }
  }

  /**
   * As written: once a category is picked, every book whose title, author and
   * category hold no colon is hidden, whatever its category.
   */
  lemma CategoryQueryHidesColonFreeBooks(books: seq<ShelfBook>, term: string, category: string)
    requires category != AllCategories
    requires forall b :: b in books ==> LacksChar(b, ':')
    ensures FilteredBooks(books, BuildQuery(term, category)) == []
  {
    var q := BuildQuery(term, category);
    assert q[|term| + 9] == CategoryTag[9] == ':';
    forall b | b in books ensures !MatchesQuery(b, q) {
      MissingCharNotMatched(b, q, ':');
    }
    FilterNone(books, b => MatchesQuery(b, q));
  }

  /** The drop-down values are lower case; a book is in the chosen category when its category lowered equals it. */
  predicate InChosenCategory(b: ShelfBook, category: string) {
    category == AllCategories || Lower(b.category) == category
  }

  /**
   * Corrected: the term is searched as before and the category is matched
   * against the book's category instead of being searched as text.
   */
  function CategorySearch(books: seq<ShelfBook>, term: string, category: string): (r: seq<ShelfBook>)
    ensures IsSubseq(r, books)
    ensures forall b :: b in r <==> b in books && MatchesQuery(b, term) && InChosenCategory(b, category)
    ensures |r| == CountIf(books, b => MatchesQuery(b, term) && InChosenCategory(b, category))
  {
    FilterLength(books, b => MatchesQuery(b, term) && InChosenCategory(b, category));
    Filter(books, b => MatchesQuery(b, term) && InChosenCategory(b, category))
  }

  /** With 'all' the corrected search is the page's filter on the query the search bar builds. */
  lemma CategorySearchAll(books: seq<ShelfBook>, term: string)
    ensures CategorySearch(books, term, AllCategories) == FilteredBooks(books, BuildQuery(term, AllCategories))
  {
    FilterCongruent(books, b => MatchesQuery(b, term) && InChosenCategory(b, AllCategories),
      b => MatchesQuery(b, term));
  }

  /** With an empty term the corrected search shows exactly the books of the chosen category. */
  lemma CategorySearchByCategory(books: seq<ShelfBook>, category: string)
    ensures forall b :: b in CategorySearch(books, "", category) <==> b in books && InChosenCategory(b, category)
  {
    forall b | b in books ensures MatchesQuery(b, "") {
      EmptyQueryMatches(b);
    }
  }

  /**
   * The discrepancies on the home catalogue: picking 'dystopian' empties the
   * grid, where the corrected search shows the Dystopian book "1984"; and the
   * corrected search finds "1984" by its ISBN.
   */
  lemma DystopianBookHidden()
    ensures FilteredBooks(Catalogue, BuildQuery("", "dystopian")) == []
    ensures NineteenEightyFour.category == "Dystopian" && NineteenEightyFour in CategorySearch(Catalogue, "", "dystopian")
    ensures NineteenEightyFour in SearchWithIsbn(Catalogue, NineteenEightyFour.isbn)
  {
    CatalogueHasNoColon();
    CategoryQueryHidesColonFreeBooks(Catalogue, "", "dystopian");
    assert Lower("Dystopian") == "dystopian";
    CategorySearchByCategory(Catalogue, "dystopian");
    IsbnFound(Catalogue, NineteenEightyFour, "");
  }
}
