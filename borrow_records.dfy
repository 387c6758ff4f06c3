/**
 * The librarian's borrow-record ledger page: searching and filtering the
 * records by status, sorting them in place by a chosen column, and the Return
 * and Renew buttons.
 *
 * Dates are day numbers; `today` is supplied by the caller. A record's status
 * is a stored field: nothing on this page derives it from the dates.
 */
module BorrowRecords {
  import opened Wrappers
  import opened Seqs
  import opened Text

  datatype Status = Active | Overdue | Returned

  /** The status drop-down: 'all' or one status. */
  datatype StatusFilter = AllStatuses | OnlyStatus(status: Status)

  /** A ledger row. `fineAmount` is in cents; `returnedDate` is None for `null`. */
  datatype BorrowRecord = BorrowRecord(
    id: int,
    bookTitle: string,
    bookAuthor: string,
    isbn: string,
    userName: string,
    userEmail: string,
    borrowedDate: int,
    dueDate: int,
    returnedDate: Option<int>,
    status: Status,
    fineAmount: int)

  /** Days added to today by Renew. */
  const RenewalDays := 30

  /** The day number of 9999-12-31 counted from 1970-01-01, standing in for a missing date. */
  const MaxDate := 2932896

  // ---------------------------------------------------------------------------
  // Search and status filter

  /** The search box: title, borrower name and author ignore case; the ISBN does not. */
  predicate MatchesSearch(r: BorrowRecord, term: string) {
    ContainsIgnoringCase(r.bookTitle, term) ||
    ContainsIgnoringCase(r.userName, term) ||
    ContainsIgnoringCase(r.bookAuthor, term) ||
    Contains(r.isbn, term)
  }

  predicate HasStatus(r: BorrowRecord, f: StatusFilter) {
    f.AllStatuses? || r.status == f.status
  }

  /** The search step: skipped for an empty term. */
  function SearchRecords(rs: seq<BorrowRecord>, term: string): seq<BorrowRecord> {
    if term == "" then rs else Filter(rs, r => MatchesSearch(r, term))
  }

  /** The status step: skipped for 'all'. */
  function StatusRecords(rs: seq<BorrowRecord>, f: StatusFilter): seq<BorrowRecord> {
    if f.AllStatuses? then rs else Filter(rs, (r: BorrowRecord) => r.status == f.status)
  }

  /** The search step followed by the status step. */
  function FilterRecords(rs: seq<BorrowRecord>, term: string, f: StatusFilter): seq<BorrowRecord> {
    StatusRecords(SearchRecords(rs, term), f)
  }

  /** An empty search term matches every record. */
  lemma EmptyTermMatches(r: BorrowRecord)
    ensures MatchesSearch(r, "")
  {
    assert Lower("") == "";
    EmptyContained(Lower(r.bookTitle));
  }

  /**
   * The two steps keep, in their original order, exactly the records that
   * match the search and have the chosen status.
   */
  lemma {:induction false} FilterRecordsSpec(rs: seq<BorrowRecord>, term: string, f: StatusFilter)
    ensures FilterRecords(rs, term, f) == Filter(rs, r => MatchesSearch(r, term) && HasStatus(r, f))
    ensures forall r :: r in FilterRecords(rs, term, f) <==> r in rs && MatchesSearch(r, term) && HasStatus(r, f)
    ensures IsSubseq(FilterRecords(rs, term, f), rs)
  {
    var keep := (r: BorrowRecord) => MatchesSearch(r, term) && HasStatus(r, f);
    var search := (r: BorrowRecord) => MatchesSearch(r, term);
    var status := (r: BorrowRecord) => HasStatus(r, f);
    if term == "" {
      forall r | r in rs ensures MatchesSearch(r, term) {
        EmptyTermMatches(r);
      }
      if f.AllStatuses? {
        FilterAll(rs, keep);
      } else {
        FilterCongruent(rs, keep, (r: BorrowRecord) => r.status == f.status);
      }
    } else if f.AllStatuses? {
      FilterCongruent(rs, keep, search);
    } else {
      FilterTwice(rs, search, (r: BorrowRecord) => r.status == f.status, keep);
    }
  }

  /** An empty term and 'all' leave the list as it is. */
  lemma NoFilterKeepsAll(rs: seq<BorrowRecord>)
    ensures FilterRecords(rs, "", AllStatuses) == rs
  {
  }

  /** The e-mail address is not searched: changing it never changes whether a record matches. */
  lemma EmailNotSearched(r: BorrowRecord, email: string, term: string)
    ensures MatchesSearch(r.(userEmail := email), term) == MatchesSearch(r, term)
  {
  }

  // ---------------------------------------------------------------------------
  // Sorting

  datatype SortField = BorrowedDate | DueDate | ReturnedDate | BookTitle | UserName
  datatype SortOrder = Asc | Desc

  /**
   * The value compared for a column: a day number for the three date columns
   * (a missing date reads as 9999-12-31), the text for the other two.
   */
  datatype SortKey = DateKey(day: int) | TextKey(text: string)

  function KeyOf(r: BorrowRecord, field: SortField): SortKey {
    match field
    case BorrowedDate => DateKey(r.borrowedDate)
    case DueDate => DateKey(r.dueDate)
    case ReturnedDate => DateKey(r.returnedDate.GetOr(MaxDate))
    case BookTitle => TextKey(r.bookTitle)
    case UserName => TextKey(r.userName)
  }

  /**
   * JavaScript's `<` on two keys of one column. Keys of one column are always
   * of the same kind; a date is put before a text only to make the order total.
   */
  predicate KeyLess(a: SortKey, b: SortKey) {
    match (a, b)
    case (DateKey(x), DateKey(y)) => x < y
    case (TextKey(x), TextKey(y)) => StrLess(x, y)
    case (DateKey(_), TextKey(_)) => true
    case (TextKey(_), DateKey(_)) => false
  }

  lemma KeyLessIrreflexive(a: SortKey)
    ensures !KeyLess(a, a)
  {
    if a.TextKey? {
      StrLessIrreflexive(a.text);
    }
  }

  lemma KeyLessTransitive(a: SortKey, b: SortKey, c: SortKey)
    requires KeyLess(a, b) && KeyLess(b, c)
    ensures KeyLess(a, c)
  {
    if a.TextKey? && b.TextKey? && c.TextKey? {
      StrLessTransitive(a.text, b.text, c.text);
    }
  }

  lemma KeyLessConnected(a: SortKey, b: SortKey)
    requires a != b
    ensures KeyLess(a, b) || KeyLess(b, a)
  {
    if a.TextKey? && b.TextKey? {
      StrLessConnected(a.text, b.text);
    }
  }

  /**
   * The comparator handed to `sort`: 1 puts `a` after `b`, -1 before it. It
   * never answers 0, so records with equal keys may come out in either order.
   */
  function Compare(a: BorrowRecord, b: BorrowRecord, field: SortField, order: SortOrder): (c: int)
    ensures c == 1 || c == -1
  {
    var x, y := KeyOf(a, field), KeyOf(b, field);
    match order
    case Asc => if KeyLess(y, x) then 1 else -1
    case Desc => if KeyLess(x, y) then 1 else -1
  }

  /** A comparator that puts `a` after `b` puts `b` before `a`. */
  lemma CompareFlip(a: BorrowRecord, b: BorrowRecord, field: SortField, order: SortOrder)
    requires Compare(a, b, field, order) == 1
    ensures Compare(b, a, field, order) == -1
  {
    var x, y := KeyOf(a, field), KeyOf(b, field);
    if KeyLess(x, y) && KeyLess(y, x) {
      KeyLessTransitive(x, y, x);
      KeyLessIrreflexive(x);
    }
  }

  /** "Before" is transitive. */
  lemma CompareTransitive(a: BorrowRecord, b: BorrowRecord, c: BorrowRecord, field: SortField, order: SortOrder)
    requires Compare(a, b, field, order) == -1 && Compare(b, c, field, order) == -1
    ensures Compare(a, c, field, order) == -1
  {
    var x, y, z := KeyOf(a, field), KeyOf(b, field), KeyOf(c, field);
    match order
    case Asc =>
      if KeyLess(z, x) && x != y {
        KeyLessConnected(x, y);
        KeyLessTransitive(z, x, y);
      }
    case Desc =>
      if KeyLess(x, z) && y != z {
        KeyLessConnected(y, z);
        KeyLessTransitive(x, z, y);
      }
  }

  /** Every record stands before every later one by the comparator. */
  ghost predicate SortedBy(s: seq<BorrowRecord>, field: SortField, order: SortOrder) {
    forall i, j :: 0 <= i < j < |s| ==> Compare(s[i], s[j], field, order) == -1
  }

  /** Exchanges two cells of the array. */
  method Swap(a: array<BorrowRecord>, i: int, j: int)
    requires 0 <= i < a.Length && 0 <= j < a.Length
    modifies a
    ensures a[i] == old(a[j]) && a[j] == old(a[i])
    ensures forall k :: 0 <= k < a.Length && k != i && k != j ==> a[k] == old(a[k])
    ensures multiset(a[..]) == multiset(old(a[..]))
  {
    a[i], a[j] := a[j], a[i];
  }

  /**
   * One pass of the insertion sort: with `a[..i]` in order, moves `a[i]` down
   * past every record that must follow it, leaving `a[..i + 1]` in order.
   */
  method InsertDown(a: array<BorrowRecord>, i: int, field: SortField, order: SortOrder)
    requires 0 <= i < a.Length
    requires forall k, l :: 0 <= k < l < i ==> Compare(a[k], a[l], field, order) == -1
    modifies a
    ensures forall k, l :: 0 <= k < l <= i ==> Compare(a[k], a[l], field, order) == -1
    ensures multiset(a[..]) == multiset(old(a[..]))
  {
    var j := i;
    while j > 0 && Compare(a[j - 1], a[j], field, order) == 1
      invariant 0 <= j <= i
      invariant forall k, l :: 0 <= k < l <= i && k != j && l != j ==> Compare(a[k], a[l], field, order) == -1
      invariant forall l :: j < l <= i ==> Compare(a[j], a[l], field, order) == -1
      invariant multiset(a[..]) == multiset(old(a[..]))
    {
      CompareFlip(a[j - 1], a[j], field, order);
      Swap(a, j - 1, j);
      j := j - 1;
    }
    if j > 0 {
      forall k | 0 <= k < j - 1
        ensures Compare(a[k], a[j], field, order) == -1
      {
        CompareTransitive(a[k], a[j - 1], a[j], field, order);
      }
    }
  }

  /**
   * `filtered.sort(comparator)`, done in place as an insertion sort: the array
   * ends up ordered by the comparator and holds the same records as before.
   */
  method SortRecords(a: array<BorrowRecord>, field: SortField, order: SortOrder)
    modifies a
    ensures SortedBy(a[..], field, order)
    ensures multiset(a[..]) == multiset(old(a[..]))
  {
    var i := 0;
    while i < a.Length
      invariant 0 <= i <= a.Length
      invariant forall k, l :: 0 <= k < l < i ==> Compare(a[k], a[l], field, order) == -1
      invariant multiset(a[..]) == multiset(old(a[..]))
    {
      InsertDown(a, i, field, order);
      i := i + 1;
    }
  }

  /** Ascending: neighbouring records never step down in the sort key. */
  lemma SortedAscNeighbours(s: seq<BorrowRecord>, field: SortField, i: int)
    requires SortedBy(s, field, Asc)
    requires 0 <= i < |s| - 1
    ensures !KeyLess(KeyOf(s[i + 1], field), KeyOf(s[i], field))
  {
    assert Compare(s[i], s[i + 1], field, Asc) == -1;
  }

  /** Descending: neighbouring records never step up in the sort key. */
  lemma SortedDescNeighbours(s: seq<BorrowRecord>, field: SortField, i: int)
    requires SortedBy(s, field, Desc)
    requires 0 <= i < |s| - 1
    ensures !KeyLess(KeyOf(s[i], field), KeyOf(s[i + 1], field))
  {
    assert Compare(s[i], s[i + 1], field, Desc) == -1;
  }

  /**
   * Sorted by return date, a record not yet returned comes after every record
   * returned before 9999-12-31 in ascending order, and before it in descending
   * order.
   */
  lemma UnreturnedSortsAsMaxDate(s: seq<BorrowRecord>, order: SortOrder, i: int, j: int)
    requires SortedBy(s, ReturnedDate, order)
    requires 0 <= i < |s| && 0 <= j < |s|
    requires s[i].returnedDate.None?
    requires s[j].returnedDate.Some? && s[j].returnedDate.value < MaxDate
    ensures order == Asc ==> j < i
    ensures order == Desc ==> i < j
  {
    if i < j {
      assert Compare(s[i], s[j], ReturnedDate, order) == -1;
    }
    if j < i {
      assert Compare(s[j], s[i], ReturnedDate, order) == -1;
    }
  }

  // ---------------------------------------------------------------------------
  // Return and Renew

  /** Return: every record with the id becomes returned today. */
  function ReturnRecords(rs: seq<BorrowRecord>, id: int, today: int): (out: seq<BorrowRecord>)
    ensures |out| == |rs|
    ensures forall i :: 0 <= i < |rs| && rs[i].id != id ==> out[i] == rs[i]
    ensures forall i :: 0 <= i < |rs| && rs[i].id == id ==>
      out[i] == rs[i].(status := Returned, returnedDate := Some(today))
  {
    if rs == [] then []
    else
      var r := rs[0];
      [if r.id == id then r.(status := Returned, returnedDate := Some(today)) else r]
        + ReturnRecords(rs[1..], id, today)
  }

  /** Renew: every record with the id is due 30 days from today, active, with no fine. */
  function RenewRecords(rs: seq<BorrowRecord>, id: int, today: int): (out: seq<BorrowRecord>)
    ensures |out| == |rs|
    ensures forall i :: 0 <= i < |rs| && rs[i].id != id ==> out[i] == rs[i]
    ensures forall i :: 0 <= i < |rs| && rs[i].id == id ==>
      out[i] == rs[i].(dueDate := today + RenewalDays, status := Active, fineAmount := 0)
  {
    if rs == [] then []
    else
      var r := rs[0];
      [if r.id == id then r.(dueDate := today + RenewalDays, status := Active, fineAmount := 0) else r]
        + RenewRecords(rs[1..], id, today)
  }

  /** Returning the same record twice on the same day is the same as returning it once. */
  lemma ReturnIdempotent(rs: seq<BorrowRecord>, id: int, today: int)
    ensures ReturnRecords(ReturnRecords(rs, id, today), id, today) == ReturnRecords(rs, id, today)
  {
  }

  /** Renewing never touches the borrow and return dates, and keeps every id in place. */
  lemma RenewKeepsDates(rs: seq<BorrowRecord>, id: int, today: int, i: int)
    requires 0 <= i < |rs|
    ensures RenewRecords(rs, id, today)[i].borrowedDate == rs[i].borrowedDate
    ensures RenewRecords(rs, id, today)[i].returnedDate == rs[i].returnedDate
    ensures RenewRecords(rs, id, today)[i].id == rs[i].id
  {
  }

  datatype Action = ReturnAction | RenewAction

  /** The buttons in a row's action cell. */
  function OfferedActions(s: Status): (acts: set<Action>)
    ensures ReturnAction in acts <==> s == Active || s == Overdue
    ensures RenewAction in acts <==> s == Overdue
    ensures acts == {} <==> s == Returned
  {
    match s
    case Active => {ReturnAction}
    case Overdue => {ReturnAction, RenewAction}
    case Returned => {}
  }

  /** After Return, the returned rows offer no button, so neither handler can reach them again. */
  lemma ReturnedRowsOfferNothing(rs: seq<BorrowRecord>, id: int, today: int, i: int)
    requires 0 <= i < |rs| && rs[i].id == id
    ensures OfferedActions(ReturnRecords(rs, id, today)[i].status) == {}
  {
  }

  /** After Renew, a renewed row offers Return only. */
  lemma RenewedRowsOfferReturn(rs: seq<BorrowRecord>, id: int, today: int, i: int)
    requires 0 <= i < |rs| && rs[i].id == id
    ensures OfferedActions(RenewRecords(rs, id, today)[i].status) == {ReturnAction}
  {
  }

  // ---------------------------------------------------------------------------
  // The page state

  /**
   * The page's `records` and `filteredRecords` state. Both are arrays: the
   * filter effect may hand the `records` array itself to `sort`.
   */
  class BorrowRecordsPage {
    var records: array<BorrowRecord>
    var filteredRecords: array<BorrowRecord>

    /** The mock load stores one array as both `records` and `filteredRecords`. */
    constructor (initial: seq<BorrowRecord>)
      ensures records[..] == initial && filteredRecords == records
      ensures fresh(records)
    {
      var a := new BorrowRecord[|initial|](i requires 0 <= i < |initial| => initial[i]);
      records := a;
      filteredRecords := a;
    }

    /**
     * The filter effect. With no search term and status 'all' nothing is
     * filtered, `filteredRecords` becomes the `records` array itself, and the
     * sort reorders `records` in place; otherwise a fresh array is sorted and
     * `records` keeps its order.
     */
    method ApplyFilters(term: string, status: StatusFilter, field: SortField, order: SortOrder)
      modifies this, records
      ensures records == old(records)
      ensures SortedBy(filteredRecords[..], field, order)
      ensures multiset(filteredRecords[..]) == multiset(FilterRecords(old(records[..]), term, status))
      ensures term == "" && status == AllStatuses ==> filteredRecords == records
      ensures !(term == "" && status == AllStatuses) ==>
        fresh(filteredRecords) && records[..] == old(records[..])
    {
      var s := FilterRecords(records[..], term, status);
      if term == "" && status == AllStatuses {
        filteredRecords := records;
      } else {
        filteredRecords := new BorrowRecord[|s|](i requires 0 <= i < |s| => s[i]);
      }
      assert filteredRecords[..] == s;
      SortRecords(filteredRecords, field, order);
    }

    /** `handleReturnBook`: `records` is replaced by the mapped copy. */
    method ReturnBook(id: int, today: int)
      modifies this
      ensures fresh(records)
      ensures records[..] == ReturnRecords(old(records[..]), id, today)
      ensures filteredRecords == old(filteredRecords)
    {
      var s := ReturnRecords(records[..], id, today);
      records := new BorrowRecord[|s|](i requires 0 <= i < |s| => s[i]);
    }

    /** `handleRenewBook`: `records` is replaced by the mapped copy. */
    method RenewBook(id: int, today: int)
      modifies this
      ensures fresh(records)
      ensures records[..] == RenewRecords(old(records[..]), id, today)
      ensures filteredRecords == old(filteredRecords)
    {
      var s := RenewRecords(records[..], id, today);
      records := new BorrowRecord[|s|](i requires 0 <= i < |s| => s[i]);
    }
  }
}
