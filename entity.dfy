/**
 * The Book record and the bean-validation constraints declared on its fields, written as a
 * function from a Book to the set of (field, message) violations a validator reports.
 */
module Entity {
  import opened Wrappers

  /**
   * A book as the API receives and stores it. Every field may be null (None); the id is
   * assigned by the store, and the title's column length of 180 is a storage setting,
   * not a validation constraint.
   */
  datatype Book = Book(
    id: Option<int>,
    title: Option<string>,
    author: Option<string>,
    isbn: Option<string>,
    publicationYear: Option<int>,
    description: Option<string>)

  datatype Field = Title | Author | Isbn | PublicationYear | Description

  /** One reported constraint violation: the offending field and the constraint's message. */
  datatype Violation = Violation(field: Field, message: string)

  const TitleRequired := "Title is required"
  const AuthorRequired := "Author is required"
  const AuthorTooLong := "Author name must be at most 50 characters"
  const IsbnRequired := "ISBN is required"
  const IsbnLength := "ISBN must be between 10 and 13 characters"
  const YearRequired := "Publication year is required"
  const DescriptionRequired := "Description is required"
  const DescriptionTooLong := "Description must be at most 500 characters"

  /**
   * @NotBlank: the value is present and keeps at least one character once trimmed,
   * where trimming strips every character at or below U+0020.
   */
  predicate NotBlank(s: Option<string>) {
    s.Some? && exists i | 0 <= i < |s.value| :: s.value[i] > ' '
  }

  /** @Size(min, max): a null value passes; a present one needs a length within [min, max]. */
  predicate SizeWithin(s: Option<string>, min: nat, max: nat) {
    s.None? || min <= |s.value| <= max
  }

  /** The message of one constraint when it fails, nothing when it holds. */
  function Check(holds: bool, message: string): set<string> {
    if holds then {} else {message}
  }

  // The constraints of each field, each given that field's value only.

  function TitleMessages(title: Option<string>): set<string> {
    Check(NotBlank(title), TitleRequired)
  }

  function AuthorMessages(author: Option<string>): set<string> {
    Check(NotBlank(author), AuthorRequired) + Check(SizeWithin(author, 0, 50), AuthorTooLong)
  }

  function IsbnMessages(isbn: Option<string>): set<string> {
    Check(NotBlank(isbn), IsbnRequired) + Check(SizeWithin(isbn, 10, 13), IsbnLength)
  }

  function YearMessages(year: Option<int>): set<string> {
    Check(year.Some?, YearRequired)
  }

  function DescriptionMessages(description: Option<string>): set<string> {
    Check(NotBlank(description), DescriptionRequired)
      + Check(SizeWithin(description, 0, 500), DescriptionTooLong)
  }

  /** The messages the constraints of field f report for book b. */
  function FieldMessages(b: Book, f: Field): set<string> {
    match f
    case Title => TitleMessages(b.title)
    case Author => AuthorMessages(b.author)
    case Isbn => IsbnMessages(b.isbn)
    case PublicationYear => YearMessages(b.publicationYear)
    case Description => DescriptionMessages(b.description)
  }

  function Tagged(f: Field, messages: set<string>): set<Violation> {
    set m | m in messages :: Violation(f, m)
  }

  /** Every violation the validator reports for b: exactly the failing constraints of each field. */
  function Violations(b: Book): (r: set<Violation>)
    ensures forall v | v in r :: v.message in FieldMessages(b, v.field)
    ensures forall f, m | m in FieldMessages(b, f) :: Violation(f, m) in r
  {
    Tagged(Title, TitleMessages(b.title))
      + Tagged(Author, AuthorMessages(b.author))
      + Tagged(Isbn, IsbnMessages(b.isbn))
      + Tagged(PublicationYear, YearMessages(b.publicationYear))
      + Tagged(Description, DescriptionMessages(b.description))
  }

  /** The messages among vs that concern field f. */
  function OnField(vs: set<Violation>, f: Field): set<string> {
    set v | v in vs && v.field == f :: v.message
  }

  /** Whether two books hold the same value in field f. */
  predicate SameOn(b: Book, c: Book, f: Field) {
    match f
    case Title => b.title == c.title
    case Author => b.author == c.author
    case Isbn => b.isbn == c.isbn
    case PublicationYear => b.publicationYear == c.publicationYear
    case Description => b.description == c.description
  }

  lemma ViolationsOnField(b: Book, f: Field)
    ensures OnField(Violations(b), f) == FieldMessages(b, f)
  {
    var vs := Violations(b);
    forall m | m in FieldMessages(b, f) ensures m in OnField(vs, f) {
      assert Violation(f, m) in vs;
    }
  }

  /** Each constraint inspects only its own field: books that agree on f have the same violations on f. */
  lemma ConstraintsAreFieldLocal(b: Book, c: Book, f: Field)
    requires SameOn(b, c, f)
    ensures OnField(Violations(b), f) == OnField(Violations(c), f)
  {
    ViolationsOnField(b, f);
    ViolationsOnField(c, f);
  }

  /** Title: any non-blank title passes, whatever its length; a null or blank one is reported. */
  lemma TitleHasNoLengthLimit(title: string)
    ensures TitleMessages(Some(title)) == {} <==> exists i | 0 <= i < |title| :: title[i] > ' '
    ensures TitleMessages(None) == {TitleRequired}
  {
  }

  /** Publication year: only null is reported, no value is out of range. */
  lemma AnyYearIsAccepted(year: int)
    ensures YearMessages(Some(year)) == {}
    ensures YearMessages(None) == {YearRequired}
  {
  }

  /** Author: over 50 characters is reported as too long, 50 passes. */
  lemma AuthorLengthLimit(author: string)
    requires exists i | 0 <= i < |author| :: author[i] > ' '
    ensures AuthorMessages(Some(author)) == if |author| <= 50 then {} else {AuthorTooLong}
  {
  }

  /** ISBN: a non-blank value is reported exactly when its length is outside 10..13. */
  lemma IsbnLengthRange(isbn: string)
    requires exists i | 0 <= i < |isbn| :: isbn[i] > ' '
    ensures IsbnMessages(Some(isbn)) == if 10 <= |isbn| <= 13 then {} else {IsbnLength}
  {
  }

  /** Description: over 500 characters is reported as too long, 500 passes. */
  lemma DescriptionLengthLimit(description: string)
    requires exists i | 0 <= i < |description| :: description[i] > ' '
    ensures DescriptionMessages(Some(description))
         == if |description| <= 500 then {} else {DescriptionTooLong}
  {
  }
}
