# Library front end: a verified model of its page logic

The library front end is a React application with two kinds of user:

- **Borrowers** browse a catalogue, open a book's details, and borrow and return books. Their profile page holds notification switches and a reading history.
- **Librarians** manage the catalogue (search, filter, add and delete books), edit a book behind a validated form, and work through the ledger of borrow records (search, status filter, sort, return, renew).

Almost all of the application is presentation. This project models the logic inside the page components. That logic is a set of handler and filter bodies, each a small transformation of an in-memory list or record. Each module models one of them and states what the code promises about it:

- `BorrowRecords`: the borrow-record ledger. It has search and status filters, an in-place sort of the shown records by a chosen key (a missing date sorts as 9999-12-31), and the return and renew handlers. There is also the rule for which action buttons a row offers.
- `ManageBooks`: the librarian's catalogue. It has a three-way filter (search, category, availability), add and delete, and the summary cards.
- `EditBook`: the edit form. It has the field-by-field validation into a field→message map, the copy arithmetic when total copies are edited, error clearing on input, and the delete guard.
- `Shelf`, `Home`, `SearchBar`, `BorrowerDashboard`, `BookDetails`: the borrower side.
  - The case-insensitive search.
  - The query string the search bar builds.
  - The available-books list.
  - The borrow and return handlers, which flip a book's `available` flag and append to or filter the list of loans.
  - The lookup by id and the related-books list.
- `ProtectedRoute`: the route guard's four-way decision from loading, user and role.
- `Profile`: the preference toggle, the contact-field inputs, and the history table's status label and returned-date cell.
- `Seqs`, `Text`, `Wrappers`: shared definitions.
  - `Filter` stands for `Array.prototype.filter`, with its lemmas.
  - `Text` has ASCII `toLowerCase`, `includes`, `trim` and lexicographic string order.
  - `Wrappers` has `Option`.

The following are parameters, not computed:

- Dates are integer day numbers, and today's day number is a parameter. The sentinel `9999-12-31` is day 2932896, counted from 1970-01-01.
- The current year is a parameter.
- The answer to `window.confirm` is a boolean parameter.
- Whether a user is logged in is a boolean parameter.

## Model

| member | source | states |
|---|---|---|
| BorrowRecords.FilterRecordsSpec | src/pages/Librarian/BorrowRecords.jsx:95-108 | The shown records are, in ledger order, exactly those that match the search term and have the chosen stored status (any status for 'all'); the two filters are ANDed and the result is a subsequence of the records |
| BorrowRecords.EmptyTermMatches | src/pages/Librarian/BorrowRecords.jsx:96-103 | Every record matches the empty search term |
| BorrowRecords.NoFilterKeepsAll | src/pages/Librarian/BorrowRecords.jsx:93-108 | With an empty term and status 'all' every record is kept, in order |
| BorrowRecords.EmailNotSearched | src/pages/Librarian/BorrowRecords.jsx:97-102 | Changing a record's user email never changes whether it matches: the email is not searched |
| BorrowRecords.KeyLessIrreflexive | src/pages/Librarian/BorrowRecords.jsx:112-124 | No sort key is below itself |
| BorrowRecords.KeyLessTransitive | src/pages/Librarian/BorrowRecords.jsx:112-124 | The key order is transitive |
| BorrowRecords.KeyLessConnected | src/pages/Librarian/BorrowRecords.jsx:112-124 | Of two different keys one is below the other |
| BorrowRecords.Compare | src/pages/Librarian/BorrowRecords.jsx:111-125 | The comparator never answers 0, only 1 or -1 |
| BorrowRecords.CompareFlip | src/pages/Librarian/BorrowRecords.jsx:120-124 | When `a` sorts after `b`, `b` sorts before `a` |
| BorrowRecords.CompareTransitive | src/pages/Librarian/BorrowRecords.jsx:120-124 | Sorting-before is transitive, so the comparator is consistent |
| BorrowRecords.Swap | src/pages/Librarian/BorrowRecords.jsx:111 | Exchanges two cells of the array and leaves the rest and the multiset of records unchanged |
| BorrowRecords.InsertDown | src/pages/Librarian/BorrowRecords.jsx:111-125 | Moves one record into place so that the prefix through it is ordered by the comparator; the multiset of records is unchanged |
| BorrowRecords.SortRecords | src/pages/Librarian/BorrowRecords.jsx:111-125 | Sorts the array in place: afterwards it is ordered by the chosen key and direction and is a permutation of what it held |
| BorrowRecords.SortedAscNeighbours | src/pages/Librarian/BorrowRecords.jsx:120-121 | In an ascending sort neighbouring keys never decrease |
| BorrowRecords.SortedDescNeighbours | src/pages/Librarian/BorrowRecords.jsx:122-123 | In a descending sort neighbouring keys never increase |
| BorrowRecords.UnreturnedSortsAsMaxDate | src/pages/Librarian/BorrowRecords.jsx:115-118 | When sorting by returned date, an unreturned record comes after every record returned before 9999-12-31 ascending and before it descending |
| BorrowRecords.ReturnRecords | src/pages/Librarian/BorrowRecords.jsx:130-139 | Records with the id get status 'returned' and today's returned date and keep every other field; other records and the length are unchanged |
| BorrowRecords.ReturnIdempotent | src/pages/Librarian/BorrowRecords.jsx:130-139 | Returning the same id twice on the same day equals returning it once |
| BorrowRecords.RenewRecords | src/pages/Librarian/BorrowRecords.jsx:141-153 | Records with the id get due date today + 30, status 'active' and fine 0 and keep every other field; other records and the length are unchanged |
| BorrowRecords.RenewKeepsDates | src/pages/Librarian/BorrowRecords.jsx:145-150 | A renewal never changes a record's id, borrowed date or returned date |
| BorrowRecords.OfferedActions | src/pages/Librarian/BorrowRecords.jsx:330-353 | Return is offered exactly for active and overdue rows, Renew exactly for overdue rows, and returned rows offer nothing |
| BorrowRecords.ReturnedRowsOfferNothing | src/pages/Librarian/BorrowRecords.jsx:130-139 | After a return, the returned rows offer no action |
| BorrowRecords.RenewedRowsOfferReturn | src/pages/Librarian/BorrowRecords.jsx:141-153 | After a renewal, the renewed rows offer Return only |
| BorrowRecords.BorrowRecordsPage.constructor | src/pages/Librarian/BorrowRecords.jsx:92-93 | The page starts with the records, and the shown array is the records array itself |
| BorrowRecords.BorrowRecordsPage.ApplyFilters | src/pages/Librarian/BorrowRecords.jsx:92-128 | The shown records are sorted and are a permutation of the filtered records. With no filter they are the records array itself, which is sorted in place. Otherwise they are a fresh array and the records are untouched |
| BorrowRecords.BorrowRecordsPage.ReturnBook | src/pages/Librarian/BorrowRecords.jsx:130-139 | The records become `ReturnRecords` of the old records, in a fresh array; the shown array is not touched |
| BorrowRecords.BorrowRecordsPage.RenewBook | src/pages/Librarian/BorrowRecords.jsx:141-153 | The records become `RenewRecords` of the old records, in a fresh array; the shown array is not touched |
| ManageBooks.EmptyTermMatchesBook | src/pages/Librarian/ManageBooks.jsx:102-108 | Every book matches the empty search term |
| ManageBooks.StepsAreFilters | src/pages/Librarian/ManageBooks.jsx:99-123 | Each guarded step of the pipeline (skipped for an empty term or 'all') equals filtering by its predicate |
| ManageBooks.FilterBooksSpec | src/pages/Librarian/ManageBooks.jsx:98-126 | The shown books are, in catalogue order, exactly those passing search, category and availability together; a subsequence of the catalogue |
| ManageBooks.AvailabilityPartition | src/pages/Librarian/ManageBooks.jsx:118-122 | For non-negative available counts, the 'available' and 'unavailable' filters split the otherwise filtered books into two disjoint parts that together make up all of them |
| ManageBooks.Categories | src/pages/Librarian/ManageBooks.jsx:217 | The set of categories holds exactly the categories some book has, and is no larger than the catalogue |
| ManageBooks.NewBookCopies | src/pages/Librarian/ManageBooks.jsx:130-139 | A new book has as many copies as the form says, none borrowed, and available = total − borrowed |
| ManageBooks.WithoutBookSpec | src/pages/Librarian/ManageBooks.jsx:155 | Deleting keeps, in order, exactly the books with another id, each as often as the catalogue holds it |
| ManageBooks.AddBookTotals | src/pages/Librarian/ManageBooks.jsx:205-212 | After an add, the available-copies card grows by the new copies and the borrowed-copies card is unchanged |
| ManageBooks.AddBookCategories | src/pages/Librarian/ManageBooks.jsx:217 | After an add, the category count grows by one exactly when the category is new |
| ManageBooks.DeleteBookTotals | src/pages/Librarian/ManageBooks.jsx:205-212 | The cards before a delete are the cards after it plus the deleted books' copies |
| ManageBooks.Catalog.constructor | src/pages/Librarian/ManageBooks.jsx:6 | The catalogue starts with the given books |
| ManageBooks.Catalog.AddBook | src/pages/Librarian/ManageBooks.jsx:128-151 | Exactly one book is appended at the end; the existing books are unchanged |
| ManageBooks.Catalog.DeleteBook | src/pages/Librarian/ManageBooks.jsx:153-157 | When confirmed, every book with the id is removed and the rest keep their order. Otherwise nothing changes. There is no borrowed-copies guard |
| EditBook.ValidIff | src/pages/Librarian/EditBook.jsx:79-112 | A book is valid iff title, author and ISBN are not blank after trimming, the category is non-empty, the year is present and within 1..currentYear, and 1 ≤ total copies and borrowed ≤ total |
| EditBook.EditKeepsCopiesConsistent | src/pages/Librarian/EditBook.jsx:114-133 | An edit never changes borrowed copies. A total-copies edit stores the parsed value (0 when unparseable) and leaves available ≥ 0, equal to total − borrowed when total ≥ borrowed. Other edits leave available alone |
| EditBook.ClearError | src/pages/Librarian/EditBook.jsx:135-140 | Editing a field empties only that field's message; the other messages and the set of keys are unchanged |
| EditBook.DeleteDecision | src/pages/Librarian/EditBook.jsx:171-178 | Delete is refused exactly when copies are borrowed, and goes ahead exactly when none are and the user confirms |
| EditBook.Rank | src/pages/Librarian/EditBook.jsx:82-108 | The position of each field in the order the checks run; the description is never checked |
| EditBook.CollectedSpec | src/pages/Librarian/EditBook.jsx:80-108 | After the first k checks the map holds a message exactly for the failing fields among them, and it is that field's message. A later copies check overwrites the earlier one |
| EditBook.AllCollected | src/pages/Librarian/EditBook.jsx:80-108 | After all checks the map holds exactly the failing fields, with their messages |
| EditBook.CollectedEmptyIffValid | src/pages/Librarian/EditBook.jsx:110-111 | No message was recorded iff the book is valid |
| EditBook.RecordMessage | src/pages/Librarian/EditBook.jsx:82-108 | One `if` of `validateForm`: it records the field's message exactly when its check fails |
| EditBook.CheckTextFields | src/pages/Librarian/EditBook.jsx:82-92 | The title, author and ISBN checks record the messages of the failing text fields |
| EditBook.CollectMessages | src/pages/Librarian/EditBook.jsx:80-108 | The whole check sequence builds the map of all failing fields and their messages |
| EditBook.BookEditor.constructor | src/pages/Librarian/EditBook.jsx:20-72 | The editor starts with the loaded book and no errors |
| EditBook.BookEditor.ValidateForm | src/pages/Librarian/EditBook.jsx:79-112 | The book is untouched. The errors become exactly the failing fields with their messages. The answer is true iff the book is valid |
| EditBook.BookEditor.HandleInputChange | src/pages/Librarian/EditBook.jsx:114-141 | The book takes the edit, with the copy recompute for total copies, and only the edited field's error is cleared |
| Text.LowerIdempotent | src/pages/Home.jsx:58-60 | Lowering a lowered string changes nothing |
| Text.LowerHasNoUpper | src/pages/Home.jsx:58-60 | A lowered string holds no upper-case letter |
| Text.LowerKeepsOthers | src/pages/Home.jsx:58-60 | A string without upper-case letters is its own lowered form |
| Text.LowerAppend | src/pages/Home.jsx:58-60 | Lowering a concatenation lowers each part |
| Text.LowerKeepsNonLetter | src/pages/Home.jsx:58-60 | A character that is not a letter is in the lowered string iff it is in the string |
| Text.ContainsSuffix | src/pages/Home.jsx:58-60 | A string that includes `a + c` includes `c` |
| Text.MissingCharNotContained | src/pages/Home.jsx:58-60 | A string never includes a string holding a character it lacks |
| Text.ContainsSelf | src/pages/Librarian/ManageBooks.jsx:106 | Every string includes itself |
| Text.ContainsIffOccurs | src/pages/Home.jsx:58-60 | `includes` holds iff the string occurs at some position |
| Text.EmptyContained | src/pages/Home.jsx:58-60 | The empty string is included in every string |
| Text.TrimStartSpec | src/pages/Librarian/EditBook.jsx:82 | Trimming the start drops exactly a leading run of whitespace |
| Text.TrimEndKeepsFirst | src/pages/Librarian/EditBook.jsx:82 | Trimming the end never removes a first character that is not whitespace |
| Text.TrimEmptyIffBlank | src/pages/Librarian/EditBook.jsx:82-92 | A string trims to empty iff it is all whitespace |
| Text.StrLessIrreflexive | src/pages/Librarian/BorrowRecords.jsx:120-123 | No string is below itself |
| Text.StrLessTransitive | src/pages/Librarian/BorrowRecords.jsx:120-123 | The string order is transitive |
| Text.StrLessConnected | src/pages/Librarian/BorrowRecords.jsx:120-123 | Of two different strings one is below the other |
| Shelf.EmptyQueryMatches | src/pages/Home.jsx:57-61 | Every book matches the empty query |
| Shelf.LongerNotContained | src/pages/Home.jsx:58-60 | A string longer than another never occurs in it |
| Shelf.LongQueryMatchesNothing | src/pages/Home.jsx:57-61 | A query longer than a book's title, author and category never matches it |
| Shelf.QueryCaseIgnored | src/pages/Home.jsx:57-61 | Case plays no part: a query and its lowered form match the same books, as do two queries with the same lowered form, and a book matches as its lowered form does |
| Shelf.MissingCharNotMatched | src/pages/Home.jsx:57-61 | A query holding a non-letter character that the title, author and category all lack matches nothing |
| Shelf.FindInTail | src/pages/Borrower/BookDetails.jsx:67 | The first book with the id found after the head, when the head has another id, is the first in the whole list |
| Shelf.FindBook | src/pages/Borrower/BookDetails.jsx:67 | The lookup finds nothing exactly when no book has the id, and otherwise returns the first book with the id |
| Shelf.SetAvailable | src/pages/Borrower/Dashboard.jsx:112 | Books with the id get the flag and keep every other field; other books are unchanged and the length is kept |
| Shelf.SetAvailableAppend | src/pages/Borrower/Dashboard.jsx:112 | Setting the flag on a concatenation sets it on each part |
| Shelf.SetAvailableTwice | src/pages/Borrower/Dashboard.jsx:112 | Setting the flag twice equals setting it to the second value |
| Shelf.SetAvailableUnchanged | src/pages/Borrower/Dashboard.jsx:119 | Setting the flag the books with the id already have changes nothing |
| SearchBar.BuildQuery | src/components/SearchBar.jsx:19-23 | The query always starts with the term. For 'all' it is the term exactly. Otherwise it is term, ` category:`, category, of length \|term\| + 10 + \|category\| |
| SearchBar.TermRecovered | src/components/SearchBar.jsx:21 | The term can be read back from the query for any category |
| SearchBar.BuildQueryInjective | src/components/SearchBar.jsx:21 | Different terms with the same category give different queries |
| Home.FilteredBooksSpec | src/pages/Home.jsx:57-61 | The grid keeps catalogue order and shows exactly the books whose title, author or category contains the query, ignoring case, each as often as the catalogue holds it |
| Home.EmptyQueryShowsAll | src/pages/Home.jsx:57-61 | The empty query shows the whole catalogue |
| Home.AvailabilityIgnored | src/pages/Home.jsx:57-61 | Flipping availability before filtering equals flipping it after: availability plays no part |
| Home.IsbnNotSearched | src/pages/Home.jsx:57-61 | Changing a book's ISBN never changes whether it matches a query: the ISBN is not searched |
| Home.CatalogueHasNoColon | src/pages/Home.jsx:15-52 | No title, author or category of the home catalogue holds a colon |
| Home.IsbnQueryFindsNothing | src/components/SearchBar.jsx:32 | Searching for the full ISBN of "1984" does not show it in the home grid |
| Home.SearchWithIsbn | src/components/SearchBar.jsx:32 | Corrected search: in catalogue order, the books whose title, author or category contains the query ignoring case, or whose ISBN contains it as typed |
| Home.IsbnFound | src/components/SearchBar.jsx:32 | The corrected search finds every book by its full ISBN and shows every book the page's grid shows |
| Home.CategoryQueryNeedsTag | src/components/SearchBar.jsx:21 | With a category chosen, a book is shown only if its title, author or category contains ` category:<cat>`, ignoring case |
| Home.CategoryQueryHidesColonFreeBooks | src/components/SearchBar.jsx:21 | With a category chosen, every book whose title, author and category hold no colon is hidden, whatever its category |
| Home.CategorySearch | src/components/SearchBar.jsx:19-23 | Corrected search: the books containing the term that are in the chosen category ('all' for any), in catalogue order, each as often as the catalogue holds it |
| Home.CategorySearchAll | src/components/SearchBar.jsx:21 | With 'all', the corrected search equals the page's filter on the query the bar builds |
| Home.CategorySearchByCategory | src/components/SearchBar.jsx:19-23 | With an empty term, the corrected search shows exactly the books of the chosen category |
| Home.DystopianBookHidden | src/components/SearchBar.jsx:21 | On the home catalogue, choosing 'dystopian' empties the grid while the corrected search shows the Dystopian book "1984"; the corrected search also finds "1984" by its ISBN |
| BorrowerDashboard.DashboardBooksSpec | src/pages/Borrower/Dashboard.jsx:92-98 | The list keeps catalogue order and holds exactly the available books that match the query. It is the home grid with the unavailable books removed |
| BorrowerDashboard.Borrow | src/pages/Borrower/Dashboard.jsx:100-114 | When the book is found and available, one loan is appended: the book marked unavailable, dated today and due today + 30. Only books with that id become unavailable. Otherwise neither list changes. The number of books never changes |
| BorrowerDashboard.Return | src/pages/Borrower/Dashboard.jsx:116-120 | Every loan of the book is removed and the other loans keep their order and multiplicity. Books with the id become available and nothing else changes |
| BorrowerDashboard.BorrowThenReturn | src/pages/Borrower/Dashboard.jsx:100-120 | Borrowing a book not on loan, whose copies under that id are all available, and returning it restores both lists |
| BorrowerDashboard.BorrowedBookNotListed | src/pages/Borrower/Dashboard.jsx:93 | After a borrow no book with that id is listed, whatever the query |
| BorrowerDashboard.ReturnedBookListed | src/pages/Borrower/Dashboard.jsx:93 | After a return every book with that id that matches the query is listed again |
| BorrowerDashboard.CategoryQueryHidesColonFreeBooks | src/components/SearchBar.jsx:21 | With a category chosen, the dashboard list hides every book whose title, author and category hold no colon |
| BorrowerDashboard.DashboardPage.constructor | src/pages/Borrower/Dashboard.jsx:9-10 | The page starts with the given books and loans |
| BorrowerDashboard.DashboardPage.HandleBorrow | src/pages/Borrower/Dashboard.jsx:100-114 | The page state becomes `Borrow` of the old state |
| BorrowerDashboard.DashboardPage.HandleReturn | src/pages/Borrower/Dashboard.jsx:116-120 | The page state becomes `Return` of the old state |
| BookDetails.Related | src/pages/Borrower/BookDetails.jsx:68 | The related books keep catalogue order and multiplicity, exclude the id and share the shown book's category; there are none when the book is not found |
| BookDetails.DetailsPage.constructor | src/pages/Borrower/BookDetails.jsx:67-68 | The page shows the first book with the id, or none for the not-found view, and its related books |
| BookDetails.DetailsPage.HandleBorrow | src/pages/Borrower/BookDetails.jsx:75-91 | With nobody logged in the page goes to login and the book is unchanged. Otherwise only `available` becomes false |
| BookDetails.DetailsPage.HandleReturn | src/pages/Borrower/BookDetails.jsx:93-103 | Only `available` becomes true |
| BookDetails.BorrowThenReturn | src/pages/Borrower/BookDetails.jsx:86-99 | Borrowing an available book as a logged-in user and then returning it restores the page |
| ProtectedRoute.Guard | src/components/ProtectedRoute.jsx:4-24 | Spinner exactly while loading. Login exactly when not loading and there is no user. Dashboard exactly when a logged-in non-librarian meets the librarian requirement. Otherwise the page: a librarian always gets it, and any user does when librarians are not required |
| ProtectedRoute.RelaxingAdmitsMore | src/components/ProtectedRoute.jsx:19-23 | Dropping the librarian requirement never hides a page the stricter guard shows; it can only turn the dashboard redirect into the page |
| Profile.Toggled | src/pages/Borrower/Profile.jsx:61-69 | The key gets the negation of its value (a missing key counts as false); every other key keeps its value |
| Profile.ToggleTwice | src/pages/Borrower/Profile.jsx:66 | Toggling a present key twice restores the preferences |
| Profile.ToggleMissingKey | src/pages/Borrower/Profile.jsx:66 | A missing key is switched on, and toggling it twice does not restore the preferences |
| Profile.WithContact | src/pages/Borrower/Profile.jsx:138-177 | Typing into an input changes only that contact field |
| Profile.ContactAndPreferencesIndependent | src/pages/Borrower/Profile.jsx:62-67 | A preference toggle and a contact edit touch disjoint parts of the profile |
| Profile.StatusLabel | src/pages/Borrower/Profile.jsx:247 | "Currently Borrowed" iff the status is 'borrowed', otherwise "Returned" |
| Profile.ReturnedCell | src/pages/Borrower/Profile.jsx:239 | A missing or empty returned date shows as '-', any other date as itself |
| Profile.ProfilePage.constructor | src/pages/Borrower/Profile.jsx:43-53 | The profile starts with the user's name and email (or empty strings), the placeholder phone and address, and the default switches |
| Profile.ProfilePage.HandlePreferenceChange | src/pages/Borrower/Profile.jsx:61-69 | Only the preferences change, by toggling the key |
| Profile.ProfilePage.HandleContactChange | src/pages/Borrower/Profile.jsx:138-177 | Only the edited contact field changes |
| Profile.TogglePreferenceTwice | src/pages/Borrower/Profile.jsx:61-69 | Pressing a present switch twice leaves the whole profile as it was |

## Left out

- Network clients (the axios wrappers under `src/api/`), login, register and logout with local storage, and the routing table are not part of this model. The guard receives `loading`, the user and the role as inputs.
- Rendering, CSS, `alert`s, `console.log`, `setTimeout` delays and async/await are not modelled. The simulated saves and deletes of the edit page, and `handleSubmit`, only navigate or alert after a delay.
- The librarian dashboard and the book card are display only and are not modelled.
- Clock and dates: `new Date()`, ISO formatting and time zones are not modelled. Dates are integer day numbers, with today's day number and the current year passed in. The sort compares day numbers where the code compares `Date` objects.
- Fines are floating point in the code. `fineAmount` is an integer here; only the reset to 0 on renewal matters.
- `toLowerCase` is modelled for ASCII letters only. Full Unicode case mapping is not modelled.
- String comparison in the sort is lexicographic by character. JavaScript compares UTF-16 code units, which differ only outside the Basic Multilingual Plane.
- BorrowRecords.SortRecords: records with equal keys come out in some order the model does not fix, as the comparator never returns 0 and the browser's sort algorithm is not modelled; the model sorts by insertion.
- Form inputs arrive as strings in the code. The published year is an optional integer here, with none for an empty input. Total copies is an integer, since every path that writes it stores a number (`parseInt(…) || 0`).
- EditBook.BookEditor.HandleInputChange: the two `setBook` calls of a total-copies edit are modelled as one combined update, the state React ends with.
- EditBook: the messages are a datatype with the exact message strings. The empty string written when an error is cleared is the `NoMessage` value.
- The add-book form's required fields and number bounds are enforced by the browser, not by the handler. The form is taken as given.
- Fresh ids from `Date.now()` are passed in as a parameter. Uniqueness is not guaranteed by the code and is not assumed.
- BookDetails.DetailsPage.HandleBorrow and BookDetails.DetailsPage.HandleReturn require a found book: their buttons exist only in the found view. An id that does not parse behaves as an id no book has.
- Effects that re-run on every state change are modelled as one call per change. Overdue status derived from dates, fine accrual, copy counts changed by borrowing, and double-borrow prevention are absent from the code and therefore from the model.
- The home page's link to the dashboard, the reading-history mock data and the tab switching are presentation.

## Findings

| source | as written | input that shows it | evidently intended | confidence | as-written member | corrected member |
|---|---|---|---|---|---|---|
| src/components/SearchBar.jsx:21 (consumed at src/pages/Home.jsx:57-61 and src/pages/Borrower/Dashboard.jsx:92-98) | With a category chosen, the query is `term category:cat`, and the pages search for that whole text in the title, author and category. A book is shown only if one of those fields contains ` category:cat`, ignoring case | Category 'dystopian', empty term, on the home catalogue: the query holds a colon and no title, author or category does, so the grid is empty, the Dystopian book "1984" included | The category restricts the results to books of that category, and the term is searched as before | not executed | Home.DystopianBookHidden | Home.CategorySearch |
| src/components/SearchBar.jsx:32 (consumed at src/pages/Home.jsx:57-61 and src/pages/Borrower/Dashboard.jsx:92-98) | The search box invites a search by title, author or ISBN, but the pages search only the title, author and category | The query "978-0451524935", the full ISBN of "1984": the query holds a hyphen and the book's title, author and category do not, so "1984" is not shown | The ISBN is searched too, as the librarian pages search it | not executed | Home.IsbnQueryFindsNothing | Home.SearchWithIsbn |
