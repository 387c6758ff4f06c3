/**
 * The book details page: the book looked up by the id in the URL, the
 * related books of the same category, and the Borrow and Return buttons.
 */
module BookDetails {
  import opened Wrappers
  import opened Seqs
  import opened Shelf

  /** A book is related to the looked-up one when it has another id and the same category. */
  predicate RelatedTo(b: ShelfBook, id: int, found: Option<ShelfBook>) {
    b.id != id && found.Some? && b.category == found.value.category
  }

  /**
   * The related books: the other books sharing the looked-up book's
   * category, each as often as the catalogue holds it, and none when the
   * lookup failed.
   */
  function Related(books: seq<ShelfBook>, id: int): (r: seq<ShelfBook>)
    ensures IsSubseq(r, books)
    ensures forall b :: b in r <==>
      b in books && b.id != id && FindBook(books, id).Some? && b.category == FindBook(books, id).value.category
    ensures |r| == CountIf(books, (b: ShelfBook) => RelatedTo(b, id, FindBook(books, id)))
    ensures FindBook(books, id).None? ==> r == []
  {
    var found := FindBook(books, id);
    var related := (b: ShelfBook) => RelatedTo(b, id, found);
    FilterLength(books, related);
    if found.None? then
      FilterNone(books, related);
      Filter(books, related)
    else
      Filter(books, related)
  }

  /** What a press of Borrow does. */
  datatype BorrowOutcome = ToLogin | Borrowed

  /** The page's `book` and `relatedBooks` state once loading is over. */
  class DetailsPage {
    var book: Option<ShelfBook>
    var relatedBooks: seq<ShelfBook>

    /** The load effect: look the book up and collect its related books. */
    constructor (catalogue: seq<ShelfBook>, id: int)
      ensures book == FindBook(catalogue, id)
      ensures relatedBooks == Related(catalogue, id)
    {
      book := FindBook(catalogue, id);
      relatedBooks := Related(catalogue, id);
    }

    /**
     * `handleBorrow`: with nobody logged in, the page goes to the login page
     * and the book is left alone; otherwise the book becomes unavailable.
     * The button exists only in the found view, hence the requires.
     */
    method HandleBorrow(userPresent: bool) returns (outcome: BorrowOutcome)
      requires book.Some?
      modifies this
      ensures outcome == ToLogin <==> !userPresent
      ensures !userPresent ==> book == old(book)
      ensures userPresent ==> book == Some(old(book).value.(available := false))
      ensures relatedBooks == old(relatedBooks)
    {
      if !userPresent {
        return ToLogin;
      }
      book := Some(book.value.(available := false));
      outcome := Borrowed;
    }

    /** `handleReturn`: the book becomes available. */
    method HandleReturn()
      requires book.Some?
      modifies this
      ensures book == Some(old(book).value.(available := true))
      ensures relatedBooks == old(relatedBooks)
    {
      book := Some(book.value.(available := true));
    }
  }

  /**
   * Borrowing and then returning an available book, as a logged-in user,
   * leaves the page as it was.
   */
  method BorrowThenReturn(page: DetailsPage)
    requires page.book.Some? && page.book.value.available
    modifies page
    ensures page.book == old(page.book) && page.relatedBooks == old(page.relatedBooks)
  {
    var outcome := page.HandleBorrow(true);
    page.HandleReturn();
  }
}
