/**
 * The librarian's Edit Book form: field validation into a field-to-message
 * map, editing a field (with the copy arithmetic when the total changes and
 * the clearing of that field's message), and the guard on Delete.
 */
module EditBook {
  import opened Wrappers
  import opened Text
  import opened ManageBooks

  /** The form's inputs, by their `name` attribute. */
  datatype Field = TitleField | AuthorField | IsbnField | CategoryField
                 | PublishedYearField | TotalCopiesField | DescriptionField

  /**
   * One change event. The number inputs arrive already parsed: None is an
   * empty or unparseable input.
   */
  datatype Edit =
    | EditTitle(title: string)
    | EditAuthor(author: string)
    | EditIsbn(isbn: string)
    | EditCategory(category: string)
    | EditPublishedYear(year: Option<int>)
    | EditTotalCopies(copies: Option<int>)
    | EditDescription(description: string)

  function FieldOf(e: Edit): Field {
    match e
    case EditTitle(_) => TitleField
    case EditAuthor(_) => AuthorField
    case EditIsbn(_) => IsbnField
    case EditCategory(_) => CategoryField
    case EditPublishedYear(_) => PublishedYearField
    case EditTotalCopies(_) => TotalCopiesField
    case EditDescription(_) => DescriptionField
  }

  /**
   * The messages the form shows under a field. `NoMessage` is the empty string
   * an edit leaves behind in place of a message.
   */
  datatype Message =
    | TitleRequired | AuthorRequired | IsbnRequired | CategoryRequired
    | YearInvalid | CopiesRequired | CopiesBelowBorrowed | NoMessage
  {
    function Text(): string {
      match this
      case TitleRequired => "Title is required"
      case AuthorRequired => "Author is required"
      case IsbnRequired => "ISBN is required"
      case CategoryRequired => "Category is required"
      case YearInvalid => "Valid published year is required"
      case CopiesRequired => "At least 1 copy is required"
      case CopiesBelowBorrowed => "Total copies cannot be less than borrowed copies"
      case NoMessage => ""
    }
  }

  // ---------------------------------------------------------------------------
  // Validation

  /**
   * The message a field ends up with after validation, field by field. For the
   * total, the "less than borrowed" message wins over "at least 1".
   */
  function FieldError(b: CatalogBook, f: Field, currentYear: int): Option<Message> {
    match f
    case TitleField => if IsBlank(b.title) then Some(TitleRequired) else None
    case AuthorField => if IsBlank(b.author) then Some(AuthorRequired) else None
    case IsbnField => if IsBlank(b.isbn) then Some(IsbnRequired) else None
    case CategoryField => if b.category == "" then Some(CategoryRequired) else None
    case PublishedYearField =>
      if b.publishedYear.None? || b.publishedYear.value < 1 || b.publishedYear.value > currentYear
      then Some(YearInvalid) else None
    case TotalCopiesField =>
      if b.totalCopies < b.borrowedCopies then Some(CopiesBelowBorrowed)
      else if b.totalCopies < 1 then Some(CopiesRequired)
      else None
    case DescriptionField => None
  }

  /** No field has a message. */
  ghost predicate IsValid(b: CatalogBook, currentYear: int) {
    forall f :: FieldError(b, f, currentYear).None?
  }

  /**
   * A form validates exactly when title, author and ISBN are not blank after
   * trimming, a category is chosen, the year lies between 1 and the current
   * year, and there is at least one copy and no fewer than are lent out.
   */
  lemma ValidIff(b: CatalogBook, currentYear: int)
    ensures IsValid(b, currentYear) <==>
      Trim(b.title) != "" && Trim(b.author) != "" && Trim(b.isbn) != "" && b.category != "" &&
      b.publishedYear.Some? && 1 <= b.publishedYear.value <= currentYear &&
      1 <= b.totalCopies && b.borrowedCopies <= b.totalCopies
  {
    TrimEmptyIffBlank(b.title);
    TrimEmptyIffBlank(b.author);
    TrimEmptyIffBlank(b.isbn);
    if IsValid(b, currentYear) {
      assert FieldError(b, TitleField, currentYear).None?;
      assert FieldError(b, AuthorField, currentYear).None?;
      assert FieldError(b, IsbnField, currentYear).None?;
      assert FieldError(b, CategoryField, currentYear).None?;
      assert FieldError(b, PublishedYearField, currentYear).None?;
      assert FieldError(b, TotalCopiesField, currentYear).None?;
    }
  }

  /**
   * `handleInputChange`'s effect on the book: the edited field takes the new
   * value; a new total also resets the available copies to total minus
   * borrowed, but never below zero.
   */
  function ApplyEdit(b: CatalogBook, e: Edit): CatalogBook {
    match e
    case EditTitle(s) => b.(title := s)
    case EditAuthor(s) => b.(author := s)
    case EditIsbn(s) => b.(isbn := s)
    case EditCategory(s) => b.(category := s)
    case EditPublishedYear(y) => b.(publishedYear := y)
    case EditTotalCopies(p) =>
      var total := p.GetOr(0);
      b.(totalCopies := total, availableCopies := if total - b.borrowedCopies > 0 then total - b.borrowedCopies else 0)
    case EditDescription(s) => b.(description := s)
  }

  /**
   * After any edit the borrowed copies are untouched and, if the total was
   * edited, the available copies are never negative and equal total minus
   * borrowed whenever that is not negative.
   */
  lemma EditKeepsCopiesConsistent(b: CatalogBook, e: Edit)
    ensures ApplyEdit(b, e).borrowedCopies == b.borrowedCopies
    ensures e.EditTotalCopies? ==> ApplyEdit(b, e).totalCopies == e.copies.GetOr(0)
    ensures e.EditTotalCopies? ==> ApplyEdit(b, e).availableCopies >= 0
    ensures e.EditTotalCopies? && ApplyEdit(b, e).totalCopies >= b.borrowedCopies ==>
      ApplyEdit(b, e).availableCopies == ApplyEdit(b, e).totalCopies - b.borrowedCopies
    ensures !e.EditTotalCopies? ==> ApplyEdit(b, e).availableCopies == b.availableCopies
  {
  }

  /**
   * Clearing a field's message: an entry that holds a message is set to the
   * empty string; the keys and every other entry stay as they were.
   */
  function ClearError(errors: map<Field, Message>, f: Field): (r: map<Field, Message>)
    ensures r.Keys == errors.Keys
    ensures forall g :: g in errors && g != f ==> r[g] == errors[g]
    ensures f in errors ==> r[f] == NoMessage
  {
    if f in errors && errors[f] != NoMessage then errors[f := NoMessage] else errors
  }

  // ---------------------------------------------------------------------------
  // Delete

  datatype DeleteOutcome = RefusedBorrowed | Cancelled | Deleted

  /** `handleDelete`: refused while copies are lent out, before the confirmation is even asked. */
  function DeleteDecision(b: CatalogBook, confirmed: bool): (r: DeleteOutcome)
    ensures b.borrowedCopies > 0 <==> r == RefusedBorrowed
    ensures r == Deleted <==> b.borrowedCopies <= 0 && confirmed
  {
    if b.borrowedCopies > 0 then RefusedBorrowed
    else if confirmed then Deleted
    else Cancelled
  }

  /** The fields `validateForm` checks, in the order it checks them; the description is never checked. */
  const Checked: seq<Field> :=
    [TitleField, AuthorField, IsbnField, CategoryField, PublishedYearField, TotalCopiesField]

  /** A field's position in `Checked`, or `|Checked|` for the description. */
  function Rank(f: Field): (k: nat)
    ensures k < |Checked| ==> Checked[k] == f
    ensures k == |Checked| <==> f !in Checked
  {
    match f
    case TitleField => 0
    case AuthorField => 1
    case IsbnField => 2
    case CategoryField => 3
    case PublishedYearField => 4
    case TotalCopiesField => 5
    case DescriptionField => 6
  }

  /** Field `f`'s message, if it has one, added to `m`. */
  function Record(m: map<Field, Message>, b: CatalogBook, f: Field, currentYear: int): map<Field, Message> {
    match FieldError(b, f, currentYear)
    case Some(msg) => m[f := msg]
    case None => m
  }

  /** The messages collected after the first `done` checks. */
  ghost function Collected(b: CatalogBook, currentYear: int, done: nat): map<Field, Message>
    requires done <= |Checked|
  {
    if done == 0 then map[] else Record(Collected(b, currentYear, done - 1), b, Checked[done - 1], currentYear)
  }

  /**
   * After the first `done` checks the map holds a message exactly for the
   * fields among them that have one, and that message is the field's.
   */
  lemma {:induction false} CollectedSpec(b: CatalogBook, currentYear: int, done: nat)
    requires done <= |Checked|
    ensures forall f :: f in Collected(b, currentYear, done) <==>
      Rank(f) < done && FieldError(b, f, currentYear).Some?
    ensures forall f :: f in Collected(b, currentYear, done) ==>
      Collected(b, currentYear, done)[f] == FieldError(b, f, currentYear).value
  {
    if done > 0 {
      CollectedSpec(b, currentYear, done - 1);
      var g := Checked[done - 1];
      assert Rank(g) == done - 1;
    }
  }

  /** Once all checks ran, the map holds every field's message and nothing else. */
  lemma AllCollected(b: CatalogBook, currentYear: int)
    ensures forall f :: f in Collected(b, currentYear, |Checked|) <==> FieldError(b, f, currentYear).Some?
    ensures forall f :: f in Collected(b, currentYear, |Checked|) ==>
      Collected(b, currentYear, |Checked|)[f] == FieldError(b, f, currentYear).value
  {
    CollectedSpec(b, currentYear, |Checked|);
    forall f | Rank(f) >= |Checked| ensures FieldError(b, f, currentYear).None? {
      assert f == DescriptionField;
    }
  }

  /** The collected map is empty exactly when the form is valid. */
  lemma CollectedEmptyIffValid(b: CatalogBook, currentYear: int)
    ensures |Collected(b, currentYear, |Checked|)| == 0 <==> IsValid(b, currentYear)
  {
    AllCollected(b, currentYear);
    var m := Collected(b, currentYear, |Checked|);
    if |m| != 0 {
      var f :| f in m;
      assert FieldError(b, f, currentYear).Some?;
    } else {
      forall f ensures FieldError(b, f, currentYear).None? {
        assert f !in m;
      }
    }
  }

  /**
   * One check of `validateForm`: stores `msg` under the next field when the
   * check fails, which collects that field's message.
   */
  method RecordMessage(m: map<Field, Message>, failing: bool, f: Field, msg: Message,
                       ghost b: CatalogBook, ghost currentYear: int, ghost done: nat)
    returns (m': map<Field, Message>)
    requires done < |Checked| && Checked[done] == f && m == Collected(b, currentYear, done)
    requires failing <==> FieldError(b, f, currentYear).Some?
    requires failing ==> msg == FieldError(b, f, currentYear).value
    ensures m' == Collected(b, currentYear, done + 1)
  {
    m' := if failing then m[f := msg] else m;
  }

  /** The first three checks of `validateForm`: the trimmed text fields must not be empty. */
  method CheckTextFields(b: CatalogBook, currentYear: int) returns (newErrors: map<Field, Message>)
    ensures newErrors == Collected(b, currentYear, 3)
  {
    newErrors := map[];
    TrimEmptyIffBlank(b.title);
    TrimEmptyIffBlank(b.author);
    TrimEmptyIffBlank(b.isbn);
    newErrors := RecordMessage(newErrors, Trim(b.title) == "", TitleField, TitleRequired, b, currentYear, 0);
    newErrors := RecordMessage(newErrors, Trim(b.author) == "", AuthorField, AuthorRequired, b, currentYear, 1);
    newErrors := RecordMessage(newErrors, Trim(b.isbn) == "", IsbnField, IsbnRequired, b, currentYear, 2);
  }

  /** All checks of `validateForm`, in its order, collecting the messages of the failing ones. */
  method CollectMessages(b: CatalogBook, currentYear: int) returns (newErrors: map<Field, Message>)
    ensures newErrors == Collected(b, currentYear, |Checked|)
  {
    newErrors := CheckTextFields(b, currentYear);
    newErrors := RecordMessage(newErrors, b.category == "", CategoryField, CategoryRequired, b, currentYear, 3);
    newErrors := RecordMessage(newErrors,
      b.publishedYear.None? || b.publishedYear.value < 1 || b.publishedYear.value > currentYear,
      PublishedYearField, YearInvalid, b, currentYear, 4);
    // The "less than borrowed" check runs second and overwrites "at least 1".
    newErrors := RecordMessage(newErrors, b.totalCopies < 1 || b.totalCopies < b.borrowedCopies,
      TotalCopiesField, if b.totalCopies < b.borrowedCopies then CopiesBelowBorrowed else CopiesRequired,
      b, currentYear, 5);
  }

  // ---------------------------------------------------------------------------
  // The form state

  /** The page's `book` and `errors` state. */
  class BookEditor {
    var book: CatalogBook
    var errors: map<Field, Message>

    constructor (loaded: CatalogBook)
      ensures book == loaded && errors == map[]
    {
      book := loaded;
      errors := map[];
    }

    /**
     * `validateForm`: collects a message per failing field, replaces the
     * error map with them, and answers whether there were none.
     */
    method ValidateForm(currentYear: int) returns (ok: bool)
      modifies this
      ensures book == old(book)
      ensures forall f :: f in errors <==> FieldError(book, f, currentYear).Some?
      ensures forall f :: f in errors ==> errors[f] == FieldError(book, f, currentYear).value
      ensures ok <==> IsValid(book, currentYear)
    {
      var newErrors := CollectMessages(book, currentYear);
      errors := newErrors;
      ok := |newErrors| == 0;
      AllCollected(book, currentYear);
      CollectedEmptyIffValid(book, currentYear);
    }

    /** `handleInputChange`: applies the edit and clears that field's message. */
    method HandleInputChange(e: Edit)
      modifies this
      ensures book == ApplyEdit(old(book), e)
      ensures errors == ClearError(old(errors), FieldOf(e))
    {
      book := ApplyEdit(book, e);
      errors := ClearError(errors, FieldOf(e));
    }
  }
}
