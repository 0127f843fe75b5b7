# Library catalogue: record store, search and validation

This project models the core of a library-catalogue REST service. It covers three parts.

- **The book service** (`Service.BookService`). The service keeps an id-keyed store of books and a counter that hands out fresh ids.
  - `CreateBook` stores a book under a fresh id.
  - Every save goes through the store's own checks (`Repository.SaveCheck`), in this order:
    - `Book` is a JPA entity with bean-validation annotations, so the store validates it before every insert and update. A book with any violation (`Entity.Violations`) is refused with `ConstraintViolation`, carrying all its violations.
    - A valid book can still break the title column: at most 180 characters. It is then refused with `DataIntegrityViolation`.
  - A refused save leaves the store unchanged. So every stored book is valid and has a title of at most 180 characters. A null title is always caught by validation, before the NOT NULL column.
  - `UpdateBook` and `DeleteBook` first check that the id exists. If it does not, they fail with `BookNotFound`.
  - `UpdateBook` forces the incoming record's id to the path id. It then replaces the stored record wholesale.
  - Retrieval and search only read the store.
- **The repository's derived query** `findByTitleContainingIgnoreCaseOrAuthorContainingIgnoreCase` (`Repository.Search`). A book matches when its title contains the title argument, ignoring case, OR its author contains the author argument, ignoring case. A null field matches nothing. The controller defaults an omitted argument to `""`. The empty string is contained in every string, so an omitted argument matches every book whose field is non-null. `SearchExamples.OmittedAuthorDoesNotFilter` shows this on the integration test's book: `search("nomatch", "")` still finds it.
- **The bean-validation constraints on `Book`** (`Entity.Violations`). These are written as a function from a book to the set of (field, message) violations.
  - `@NotBlank` fails on null, and on a string whose characters are all at or below U+0020. Those are the characters `String.trim` strips.
  - `@Size` passes on null.
  - `@NotNull` fails only on null.
  - The title's 180 is a column length, not a validation constraint, so validation accepts a title of any length. The store's column then refuses a title over 180 characters (`ValidationExamples.TitleOf181PassesValidationOnly`).
  - An empty ISBN breaks both of its constraints and is reported twice.

The not-found condition carries the message "Book with ID <id> not found.", with the id written as `Long.toString` writes it (`Exceptions.Message`). The id can be read back from the message.

Two consequences of the code are worth stating.
- The search is not a title-only search when the author is omitted. With OR semantics and the controller's `""` default (BookController.java:98-99), `search("Spring", "")` and `search("nomatch", "")` both return every book that has an author.
- `BookService.java` returns a bare `Book` (or null) from `retrieveBookById` and spells the listing method `retireveAllBooks`. The controller and the service tests call `retrieveAllBooks` and expect an `Optional`. The model returns `Option<Book>`.

Modules: `Wrappers` (Option, Result, Outcome), `Text` (ASCII case folding, substring), `Entity`, `Exceptions`, `Repository`, `Service`, and two modules of test scenarios (`ValidationExamples`, `SearchExamples`).

## Model

| member | source | states |
|---|---|---|
| `Service.BookService.constructor` | src/main/java/com/jpereira30/library_api/service/BookService.java:16-18 | The service starts over an empty store, with the store invariant established. |
| `Service.BookService.CreateBook` | src/main/java/com/jpereira30/library_api/service/BookService.java:21-23 | An id-less book that passes the store's checks is saved under an id not in use before. It is returned with that id and all other fields unchanged. Only that id is added to the store, and retrieving the id afterwards yields the saved record. A book with a validation violation fails with `ConstraintViolation` and its violations. A valid book whose title is over 180 characters fails with `DataIntegrityViolation`. In both cases the store is unchanged. |
| `Service.BookService.RetrieveAllBooks` | src/main/java/com/jpereira30/library_api/service/BookService.java:26-28 | Every stored record is returned, as many records as ids. Each returned record is retrievable by its own id. |
| `Service.BookService.RetrieveBookById` | src/main/java/com/jpereira30/library_api/service/BookService.java:31-33 | Returns the stored record exactly when the id is in use, and nothing otherwise. The record carries the requested id. Reading changes nothing. |
| `Service.BookService.UpdateBook` | src/main/java/com/jpereira30/library_api/service/BookService.java:36-42 | For a missing id: fails with `BookNotFound(id)` and leaves the store unchanged. For an existing id whose incoming book the store's checks refuse: fails with that refusal (`ConstraintViolation` or `DataIntegrityViolation`), store unchanged. Otherwise: the record under the id becomes exactly the incoming fields with the id forced to the path id (no merge). The set of ids and every other record are unchanged. |
| `Service.BookService.DeleteBook` | src/main/java/com/jpereira30/library_api/service/BookService.java:45-50 | For a missing id: fails with `BookNotFound(id)` and leaves the store unchanged. Otherwise: exactly that id is removed, so retrieving it gives nothing. Every other record is still retrievable unchanged. |
| `Service.BookService.SearchBooks` | src/main/java/com/jpereira30/library_api/service/BookService.java:53-56 | Returns exactly the repository search for the unchanged arguments. Every result is a stored record, retrievable by its id. Because every stored book has a title, an empty title argument returns all books. |
| `Service.CreateUpdateDeleteScenario` | src/test/java/com/jpereira30/library_api/integration/BookIntegrationTest.java:32-121 | A created book can be read back after an update as the updated fields under its id. Updating an unknown id fails with not-found. After a delete, retrieval gives nothing, and a second delete reports that id as not found. |
| `Repository.OneRecordPerId` | src/main/java/com/jpereira30/library_api/repository/BookRepository.java:9 | In a store keyed by id, findAll returns exactly one record per stored id. |
| `Repository.Search` | src/main/java/com/jpereira30/library_api/repository/BookRepository.java:12-13 | A stored record is in the result if and only if its lower-cased title contains the lower-cased title argument, or its lower-cased author contains the lower-cased author argument. The result is a subset of findAll. |
| `Repository.SearchIsUnion` | src/main/java/com/jpereira30/library_api/repository/BookRepository.java:12-13 | The search is the union (OR) of the title-only and author-only matches. |
| `Repository.SearchIgnoresCase` | src/main/java/com/jpereira30/library_api/repository/BookRepository.java:12-13 | Arguments that differ only in the case of letters give the same result. "Differ only in case" is stated per character: equal, or both ASCII letters 32 apart. |
| `Text.LowerOfSameIgnoringCase` | src/main/java/com/jpereira30/library_api/repository/BookRepository.java:12-13 | Two strings lower-case to the same string if and only if they differ at most in the case of letters. |
| `Repository.EmptyTitleMatchesEveryTitled` | src/main/java/com/jpereira30/library_api/repository/BookRepository.java:12-13 | With an empty title argument, every record that has a title matches, whatever the author argument. |
| `Repository.EmptyAuthorMatchesEveryAuthored` | src/main/java/com/jpereira30/library_api/repository/BookRepository.java:12-13 | With an empty author argument, every record that has an author matches, whatever the title argument. |
| `Repository.EmptyTitleReturnsAll` | src/main/java/com/jpereira30/library_api/repository/BookRepository.java:12-13 | When every record has a title, an empty title argument returns all of findAll. |
| `Repository.LongerArgumentMatchesFewer` | src/main/java/com/jpereira30/library_api/repository/BookRepository.java:12-13 | Growing the title or the author argument (to a string that contains it) can only shrink the set of books matched through that field. |
| `Text.ContainsIffOccurs` | src/main/java/com/jpereira30/library_api/repository/BookRepository.java:12-13 | "Containing" holds if and only if the argument occurs at some index of the field. This is the meaning of `LIKE '%arg%'` with the argument's wildcards escaped. |
| `SearchExamples.SpringFindsGuide` | src/test/java/com/jpereira30/library_api/integration/BookIntegrationTest.java:89-102 | Searching the title for "Spring" finds "Spring Boot Guide", through its title alone. |
| `SearchExamples.OmittedAuthorDoesNotFilter` | src/main/java/com/jpereira30/library_api/controller/BookController.java:98-99 | With the author defaulted to "", "nomatch" still finds the book, although it matches no title. Only a non-matching author argument excludes the book. |
| `Repository.NullTitleRefusedByValidation` | src/main/java/com/jpereira30/library_api/entity/Book.java:18-32 | A null title is refused by validation before the save, with "Title is required" among the violations. It never reaches the NOT NULL column. |
| `Repository.ColumnRefusesOnlyLongTitles` | src/main/java/com/jpereira30/library_api/entity/Book.java:31-32 | The store fails with `DataIntegrityViolation` exactly when the book is valid and its title is longer than 180 characters. |
| `Entity.Violations` | src/main/java/com/jpereira30/library_api/entity/Book.java:31-48 | A (field, message) pair is reported if and only if that message belongs to a failing constraint of that field. |
| `Entity.ViolationsOnField` | src/main/java/com/jpereira30/library_api/entity/Book.java:31-48 | The messages reported on a field are exactly those of that field's failing constraints. |
| `Entity.ConstraintsAreFieldLocal` | src/main/java/com/jpereira30/library_api/entity/Book.java:31-48 | Two books that agree on a field get the same violations on it. So changing one field cannot add or remove violations on another. |
| `Entity.TitleHasNoLengthLimit` | src/main/java/com/jpereira30/library_api/entity/Book.java:31-33 | A title passes if and only if it is non-blank, whatever its length. A null title reports "Title is required". |
| `Entity.AuthorLengthLimit` | src/main/java/com/jpereira30/library_api/entity/Book.java:35-37 | A non-blank author reports "Author name must be at most 50 characters" exactly when it is longer than 50. |
| `Entity.IsbnLengthRange` | src/main/java/com/jpereira30/library_api/entity/Book.java:39-41 | A non-blank ISBN reports "ISBN must be between 10 and 13 characters" exactly when its length is outside 10..13. |
| `Entity.AnyYearIsAccepted` | src/main/java/com/jpereira30/library_api/entity/Book.java:43-44 | Only a null year reports "Publication year is required". No integer year is rejected. |
| `Entity.DescriptionLengthLimit` | src/main/java/com/jpereira30/library_api/entity/Book.java:46-48 | A non-blank description reports "Description must be at most 500 characters" exactly when it is longer than 500. |
| `ValidationExamples.EffectiveJavaIsValid` | src/test/java/com/jpereira30/library_api/entity/BookValidationTest.java:23-37 | The tests' fully populated book has no violations. |
| `ValidationExamples.BlankTitleReported` | src/test/java/com/jpereira30/library_api/entity/BookValidationTest.java:39-54 | An empty title gives exactly one violation, "Title is required". |
| `ValidationExamples.BlankAuthorReported` | src/test/java/com/jpereira30/library_api/entity/BookValidationTest.java:56-71 | An empty author gives exactly one violation, "Author is required". |
| `ValidationExamples.ShortIsbnReported` | src/test/java/com/jpereira30/library_api/entity/BookValidationTest.java:73-89 | ISBN "1234" gives exactly one violation, "ISBN must be between 10 and 13 characters". |
| `ValidationExamples.EmptyIsbnReportedTwice` | src/main/java/com/jpereira30/library_api/entity/Book.java:39-41 | An empty ISBN gives exactly two violations: "ISBN is required" and the length message. |
| `ValidationExamples.NullYearReported` | src/test/java/com/jpereira30/library_api/entity/BookValidationTest.java:91-106 | A null year gives exactly one violation, "Publication year is required". |
| `ValidationExamples.BlankDescriptionReported` | src/test/java/com/jpereira30/library_api/entity/BookValidationTest.java:108-123 | An empty description gives exactly one violation, "Description is required". |
| `ValidationExamples.DescriptionOf501Reported` | src/test/java/com/jpereira30/library_api/entity/BookValidationTest.java:125-142 | A 501-character description gives exactly one violation, "Description must be at most 500 characters". |
| `ValidationExamples.TitleOf181PassesValidationOnly` | src/main/java/com/jpereira30/library_api/entity/Book.java:31-33 | A 181-character title has no validation violation, but the store refuses it with `DataIntegrityViolation`. |
| `ValidationExamples.DescriptionOf500Accepted` | src/main/java/com/jpereira30/library_api/entity/Book.java:46-48 | A 500-character description gives no violation. |
| `Exceptions.Message` | src/main/java/com/jpereira30/library_api/exception/BookNotFoundException.java:5-7 | The message starts with "Book with ID " and ends with " not found.", with the id in between. |
| `Exceptions.LongToStringRoundTrip` | src/main/java/com/jpereira30/library_api/exception/BookNotFoundException.java:6 | The id's decimal rendering (with "-" for negative ids) parses back to the id. |
| `Exceptions.MessageNamesId` | src/main/java/com/jpereira30/library_api/exception/BookNotFoundException.java:6 | The id can be read back from the message. |
| `Exceptions.DistinctIdsDistinctMessages` | src/main/java/com/jpereira30/library_api/exception/BookNotFoundException.java:6 | Different ids give different messages. |
| `Exceptions.MessageFor999` | src/main/java/com/jpereira30/library_api/exception/BookNotFoundException.java:6 | For id 999 the message is exactly "Book with ID 999 not found.". |

## Left out

- HTTP routing, status mapping and request-body binding in the controller are left out. Catching the exception and returning 404 is framework plumbing; the service results already separate success from not-found.
- Running validation at the controller boundary (`@Valid`, BookController.java:40 and :71) is not modelled separately. It reports the same violations (`Entity.Violations`) as the store's validation at save, which the model does include (`Repository.SaveCheck`). The only difference is the error: HTTP 400 instead of an exception from the save.
- Other database column settings are not modelled. Only the title column's declared constraints are.
- The AI insight call (outbound HTTP, reactive, blocking wait) is left out, as is its response DTO. It is network I/O, and its only logic is two fixed fallback strings.
- The global exception handler is not part of this model, because its source is not available.
- Service.BookService.CreateBook: requires a book without an id. The store's save/merge behaviour for a caller-supplied id is not visible in the source.
- Id assignment is only "fresh": ids are drawn from a counter above every id in use. The store's exact identity sequence, transactions and concurrent writes are not modelled.
- Ids are unbounded integers, not 64-bit `Long`s. The publication year is an unbounded integer, not a 32-bit `Integer`. No operation depends on the width.
- Two operations set the id on the caller's own object. `updateBook` calls `setId`, and `createBook`'s save of a new entity assigns the generated id to the object passed in. The model returns the book with the id set instead, so this aliasing is not modelled.
- Service.BookService.RetrieveBookById: never raises `BookNotFound`; a missing id gives `None`. Some tests expect a missing id on retrieval to report "Book with ID N not found.". BookControllerTest.java:65 and :74 stub a bare-`Book` variant that throws the exception. BookIntegrationTest.java:120 and :131 expect that message from a GET. The controller's Optional-returning path answers 404 with no message. The model follows the Optional variant.
- Whether a failed insert uses up an identity value is not modelled. A refused create leaves the counter unchanged.
- The order of `findAll` and of search results is unspecified store order. Results are sets.
- Case folding is ASCII only. Unicode case mapping is not modelled, nor the store's `upper`-based comparison. Under ASCII folding, upper- and lower-casing give the same matches.
- Blankness follows `String.trim`: characters at or below U+0020 are blank. Lengths count characters, not UTF-16 code units.
- Null search arguments are not modelled. The controller always passes a string, `""` by default.
