/**
 * The book record the borrower-facing pages (home, borrower dashboard, book
 * details) hold, with the operations they share: the search predicate, the
 * lookup by id and the update of the `available` flag.
 */
module Shelf {
  import opened Wrappers
  import opened Text

  /** A book as the borrower pages hold it; the cover URL and display extras are left out. */
  datatype ShelfBook = ShelfBook(
    id: int,
    title: string,
    author: string,
    isbn: string,
    category: string,
    available: bool)

  /**
   * The search shared by the home page and the borrower dashboard: the title,
   * author or category contains the query, ignoring case. The ISBN is not searched.
   */
  predicate MatchesQuery(b: ShelfBook, query: string) {
    ContainsIgnoringCase(b.title, query) ||
    ContainsIgnoringCase(b.author, query) ||
    ContainsIgnoringCase(b.category, query)
  }

  /** The empty query matches every book. */
  lemma EmptyQueryMatches(b: ShelfBook)
    ensures MatchesQuery(b, "")
  {
    assert Lower("") == "";
    EmptyContained(Lower(b.title));
  }

  /**
   * Case plays no part on either side: a query and its lowered form match the
   * same books, so do two queries that lower to the same string, and a book
   * matches as its lowered form does.
   */
  lemma QueryCaseIgnored(b: ShelfBook, q: string, q': string)
    ensures MatchesQuery(b, Lower(q)) == MatchesQuery(b, q)
    ensures Lower(q) == Lower(q') ==> MatchesQuery(b, q) == MatchesQuery(b, q')
    ensures MatchesQuery(b.(title := Lower(b.title), author := Lower(b.author), category := Lower(b.category)), q)
         == MatchesQuery(b, q)
  {
    LowerIdempotent(q);
    LowerIdempotent(b.title);
    LowerIdempotent(b.author);
    LowerIdempotent(b.category);
  }

  /** None of the searched fields holds `c`. */
  predicate LacksChar(b: ShelfBook, c: char) {
    c !in b.title && c !in b.author && c !in b.category
  }

  /**
   * A query holding a punctuation character (no ASCII letter) that the title,
   * author and category all lack matches nothing.
   */
  lemma MissingCharNotMatched(b: ShelfBook, query: string, c: char)
    requires !('A' <= c <= 'Z') && !('a' <= c <= 'z')
    requires c in query && LacksChar(b, c)
    ensures !MatchesQuery(b, query)
  {
    LowerKeepsNonLetter(query, c);
    LowerKeepsNonLetter(b.title, c);
    LowerKeepsNonLetter(b.author, c);
    LowerKeepsNonLetter(b.category, c);
    MissingCharNotContained(Lower(b.title), Lower(query), c);
    MissingCharNotContained(Lower(b.author), Lower(query), c);
    MissingCharNotContained(Lower(b.category), Lower(query), c);
  }

  /** A string longer than `s` never occurs in it. */
  lemma {:induction false} LongerNotContained(s: string, t: string)
    requires |t| > |s|
    ensures !Contains(s, t)
  {
    if s != [] {
      LongerNotContained(s[1..], t);
    }
  }

  /** A query longer than the title, the author and the category matches nothing. */
  lemma LongQueryMatchesNothing(b: ShelfBook, query: string)
    requires |query| > |b.title| && |query| > |b.author| && |query| > |b.category|
    ensures !MatchesQuery(b, query)
  {
    LongerNotContained(Lower(b.title), Lower(query));
    LongerNotContained(Lower(b.author), Lower(query));
    LongerNotContained(Lower(b.category), Lower(query));
  }

  /** Position `i` holds the first book with that id. */
  ghost predicate FirstWithId(books: seq<ShelfBook>, id: int, i: int) {
    0 <= i < |books| && books[i].id == id && forall j :: 0 <= j < i ==> books[j].id != id
  }

  /** The first book with that id found in the tail is also the first in the whole list. */
  lemma FindInTail(books: seq<ShelfBook>, id: int, r: Option<ShelfBook>)
    requires books != [] && books[0].id != id
    requires r.None? <==> forall b :: b in books[1..] ==> b.id != id
    requires r.Some? ==> exists i :: FirstWithId(books[1..], id, i) && books[1..][i] == r.value
    ensures r.None? <==> forall b :: b in books ==> b.id != id
    ensures r.Some? ==> exists i :: FirstWithId(books, id, i) && books[i] == r.value
  {
    assert forall b :: b in books ==> b == books[0] || b in books[1..];
    if r.Some? {
      var i :| FirstWithId(books[1..], id, i) && books[1..][i] == r.value;
      assert FirstWithId(books, id, i + 1) by {
        forall j | 1 <= j < i + 1 ensures books[j].id != id {
          assert books[j] == books[1..][j - 1];
        }
      }
    }
  }

  /** The lookup of a book by id: the first book with that id, or None when there is none. */
  function FindBook(books: seq<ShelfBook>, id: int): (r: Option<ShelfBook>)
    ensures r.None? <==> forall b :: b in books ==> b.id != id
    ensures r.Some? ==> exists i :: FirstWithId(books, id, i) && books[i] == r.value
  {
    if books == [] then None
    else if books[0].id == id then
      assert FirstWithId(books, id, 0);
      Some(books[0])
    else
      var r := FindBook(books[1..], id);
      FindInTail(books, id, r);
      r
  }

  /**
   * The update of the `available` flag by id: every book with that id gets
   * the flag, every other book stays as it was.
   */
  function SetAvailable(books: seq<ShelfBook>, id: int, value: bool): (r: seq<ShelfBook>)
    ensures |r| == |books|
    ensures forall i :: 0 <= i < |books| && books[i].id == id ==> r[i] == books[i].(available := value)
    ensures forall i :: 0 <= i < |books| && books[i].id != id ==> r[i] == books[i]
  {
    seq(|books|, i requires 0 <= i < |books| =>
      if books[i].id == id then books[i].(available := value) else books[i])
  }

  /** Setting the flag on a concatenation sets it on each part. */
  lemma SetAvailableAppend(a: seq<ShelfBook>, c: seq<ShelfBook>, id: int, v: bool)
    ensures SetAvailable(a + c, id, v) == SetAvailable(a, id, v) + SetAvailable(c, id, v)
  {
    var l, r := SetAvailable(a + c, id, v), SetAvailable(a, id, v) + SetAvailable(c, id, v);
    forall i | 0 <= i < |a + c| ensures l[i] == r[i] {
      if i >= |a| {
        assert (a + c)[i] == c[i - |a|];
      }
    }
  }

  /** Setting the flag twice: the second write wins. */
  lemma SetAvailableTwice(books: seq<ShelfBook>, id: int, v: bool, w: bool)
    ensures SetAvailable(SetAvailable(books, id, v), id, w) == SetAvailable(books, id, w)
  {
  }

  /** Setting the flag to the value every book with that id already has changes nothing. */
  lemma SetAvailableUnchanged(books: seq<ShelfBook>, id: int, v: bool)
    requires forall b :: b in books && b.id == id ==> b.available == v
    ensures SetAvailable(books, id, v) == books
  {
    var r := SetAvailable(books, id, v);
    forall i | 0 <= i < |books| ensures r[i] == books[i] {
      assert books[i] in books;
    }
  }
}
