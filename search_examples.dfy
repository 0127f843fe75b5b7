/** The repository's search on the book of the integration test's search scenario. */
module SearchExamples {
  import opened Wrappers
  import opened Text
  import opened Entity
  import opened Repository

  /** The book of the integration test's search scenario, stored under id 1. */
  function SpringBootGuide(): Book {
    Book(
      Some(1), Some("Spring Boot Guide"), Some("John Doe"), Some("1234567890"),
      Some(2021), Some("Learn Spring Boot"))
  }

  /** Searching the title for "Spring" finds the book, and through the title alone. */
  lemma SpringFindsGuide()
    ensures SpringBootGuide() in FieldMatches(map[1 := SpringBootGuide()], TitleField, "Spring")
    ensures SpringBootGuide() in Search(map[1 := SpringBootGuide()], "Spring", "")
  {
    var guide := SpringBootGuide();
    var title, arg := Lower(guide.title.value), Lower("Spring");
    assert title[..6] == arg;
    OccurrenceIsContained(title, arg, 0);
    assert map[1 := guide][1] == guide;
  }

  /**
   * With the author left at its default "", the title argument does not filter: "nomatch" occurs
   * in neither field, yet the book is found; a non-matching author argument as well excludes it.
   */
  lemma OmittedAuthorDoesNotFilter()
    ensures SpringBootGuide() !in FieldMatches(map[1 := SpringBootGuide()], TitleField, "nomatch")
    ensures SpringBootGuide() in Search(map[1 := SpringBootGuide()], "nomatch", "")
    ensures SpringBootGuide() !in Search(map[1 := SpringBootGuide()], "nomatch", "nobody")
  {
    var guide := SpringBootGuide();
    var store := map[1 := guide];
    assert store[1] == guide;
    EmptyAuthorMatchesEveryAuthored(store, "nomatch");
    var title, author := Lower(guide.title.value), Lower(guide.author.value);
    var noMatch, nobody := Lower("nomatch"), Lower("nobody");
    forall i | 0 <= i < |title| ensures title[i] != 'm' {
      assert title[i] == LowerChar(guide.title.value[i]);
    }
    assert noMatch[2] == 'm' && 'm' !in title;
    assert nobody[2] == 'b' && 'b' !in author;
    if Contains(title, noMatch) {
      ContainedCharsOccur(title, noMatch);
    }
    if Contains(author, nobody) {
      ContainedCharsOccur(author, nobody);
    }
  }
}
