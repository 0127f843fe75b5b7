/** The validator on the books of the validation tests: one valid book and one variation per constraint. */
module ValidationExamples {
  import opened Wrappers
  import opened Entity
  import Repository

  /** The fully populated book of the validation tests. */
  const EffectiveJava := Book(
    None, Some("Effective Java"), Some("Joshua Bloch"), Some("9780134685991"),
    Some(2018), Some("A must-read for Java developers."))

  lemma {:induction false} EffectiveJavaIsValid()
    ensures Violations(EffectiveJava) == {}
  {
    assert NotBlank(EffectiveJava.title) by { assert EffectiveJava.title.value[0] > ' '; }
    assert NotBlank(EffectiveJava.author) by { assert EffectiveJava.author.value[0] > ' '; }
    assert NotBlank(EffectiveJava.isbn) by { assert EffectiveJava.isbn.value[0] > ' '; }
    assert NotBlank(EffectiveJava.description) by { assert EffectiveJava.description.value[0] > ' '; }
  }

  lemma BlankTitleReported()
    ensures Violations(EffectiveJava.(title := Some(""))) == {Violation(Title, TitleRequired)}
  {
    EffectiveJavaIsValid();
  }

  lemma BlankAuthorReported()
    ensures Violations(EffectiveJava.(author := Some(""))) == {Violation(Author, AuthorRequired)}
  {
    EffectiveJavaIsValid();
  }

  /** A four-character ISBN breaks only the length constraint. */
  lemma ShortIsbnReported()
    ensures Violations(EffectiveJava.(isbn := Some("1234"))) == {Violation(Isbn, IsbnLength)}
  {
    EffectiveJavaIsValid();
    assert Some("1234").value[0] > ' ';
  }

  /** An empty ISBN breaks both of the field's constraints, so it is reported twice. */
  lemma EmptyIsbnReportedTwice()
    ensures Violations(EffectiveJava.(isbn := Some("")))
         == {Violation(Isbn, IsbnRequired), Violation(Isbn, IsbnLength)}
  {
    EffectiveJavaIsValid();
  }

  lemma NullYearReported()
    ensures Violations(EffectiveJava.(publicationYear := None)) == {Violation(PublicationYear, YearRequired)}
  {
    EffectiveJavaIsValid();
  }

  /** An empty description is reported as missing only: its length 0 is within the limit. */
  lemma BlankDescriptionReported()
    ensures Violations(EffectiveJava.(description := Some(""))) == {Violation(Description, DescriptionRequired)}
  {
    EffectiveJavaIsValid();
  }

  lemma DescriptionOf501Reported()
    ensures Violations(EffectiveJava.(description := Some(seq(501, _ => 'A'))))
         == {Violation(Description, DescriptionTooLong)}
  {
    EffectiveJavaIsValid();
    var long: string := seq(501, _ => 'A');
    assert long[0] > ' ';
    DescriptionLengthLimit(long);
  }

  lemma DescriptionOf500Accepted()
    ensures Violations(EffectiveJava.(description := Some(seq(500, _ => 'A')))) == {}
  {
    EffectiveJavaIsValid();
    var long: string := seq(500, _ => 'A');
    assert long[0] > ' ';
    DescriptionLengthLimit(long);
  }

  /**
   * A 181-character title passes validation, since 180 is only the title column's length,
   * but the store's column constraint refuses it.
   */
  lemma TitleOf181PassesValidationOnly()
    ensures Violations(EffectiveJava.(title := Some(seq(181, _ => 'A')))) == {}
    ensures Repository.SaveCheck(EffectiveJava.(title := Some(seq(181, _ => 'A'))))
        == Some(Repository.DataIntegrityViolation)
  {
    EffectiveJavaIsValid();
    var long: string := seq(181, _ => 'A');
    assert long[0] > ' ';
    assert NotBlank(Some(long));
  }
}
