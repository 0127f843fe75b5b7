/**
 * The book service: the business rules over the record store. The store is the service's state
 * (the records by id and the counter the store draws fresh ids from); create, update and delete
 * change it, retrieval and search only read it. A save the store refuses (a book that breaks its
 * validation constraints, or a title longer than its column) leaves the store as it was.
 */
module Service {
  import opened Wrappers
  import opened Entity
  import opened Exceptions
  import Repository

  /** Why an update fails: the id is not in use, or the store refused the save. */
  datatype UpdateError = NotFound(notFound: BookNotFound) | SaveFailed(cause: Repository.SaveError)

  class BookService {
    /** The stored records by id. */
    var records: map<int, Book>
    /** The next id the store hands out; every stored id is below it. */
    var nextId: int

    /**
     * Each record sits under its own id, passed the store's checks on save (no validation
     * violation, title within its column), and has an id below the next fresh one.
     */
    ghost predicate Valid()
      reads this
    {
      && Repository.KeyedById(records)
      && Repository.AllStorable(records)
      && forall id | id in records :: id < nextId
    }

    /** A service over an empty store. */
    constructor ()
      ensures Valid()
      ensures records == map[]
    {
      records := map[];
      nextId := 1;
    }

    /**
     * createBook: the store saves the book under a fresh id and returns it with that id;
     * every other field is kept, and the new record can be retrieved by its id. A book the
     * store's checks refuse is not saved, and the failure says why.
     */
    method CreateBook(book: Book) returns (r: Result<Book, Repository.SaveError>)
      requires Valid()
      requires book.id.None?
      modifies this
      ensures Valid()
      ensures Repository.SaveCheck(book).Some? ==> r == Failure(Repository.SaveCheck(book).value) && records == old(records)
      ensures Repository.SaveCheck(book).None? ==> r.Success?
      ensures r.Success? ==> r.value.id.Some? && r.value.id.value !in old(records)
      ensures r.Success? ==> r.value == book.(id := r.value.id)
      ensures r.Success? ==> records == old(records)[r.value.id.value := r.value]
      ensures r.Success? ==> RetrieveBookById(r.value.id.value) == Some(r.value)
    {
      var refusal := Repository.SaveCheck(book);
      if refusal.Some? {
        return Failure(refusal.value);
      }
      var id := nextId;
      var saved := book.(id := Some(id));
      records := records[id := saved];
      nextId := nextId + 1;
      r := Success(saved);
    }

    /** retrieveAllBooks: every stored record, one per stored id, each retrievable by its own id. */
    function RetrieveAllBooks(): (r: set<Book>)
      requires Valid()
      reads this
      ensures |r| == |records|
      ensures forall b | b in r :: b.id.Some? && RetrieveBookById(b.id.value) == Some(b)
      ensures forall id | id in records :: records[id] in r
    {
      Repository.OneRecordPerId(records);
      Repository.FindAll(records)
    }

    /** retrieveBookById: the stored record when the id is in use, nothing otherwise. */
    function RetrieveBookById(id: int): (r: Option<Book>)
      reads this
      ensures r.Some? <==> id in records
      ensures r.Some? ==> r.value == records[id]
      ensures Valid() && r.Some? ==> r.value.id == Some(id)
    {
      if id in records then Some(records[id]) else None
    }

    /**
     * updateBook: a missing id fails with BookNotFound and changes nothing. Otherwise the incoming
     * book, its id forced to the path id whatever the caller sent, replaces the stored record
     * wholesale, unless the store refuses it; no other record and no id in use changes.
     */
    method UpdateBook(id: int, book: Book) returns (r: Result<Book, UpdateError>)
      requires Valid()
      modifies this
      ensures Valid()
      ensures nextId == old(nextId)
      ensures id !in old(records) ==> r == Failure(NotFound(BookNotFound(id))) && records == old(records)
      ensures id in old(records) && Repository.SaveCheck(book).Some?
          ==> r == Failure(SaveFailed(Repository.SaveCheck(book).value)) && records == old(records)
      ensures id in old(records) && Repository.SaveCheck(book).None?
          ==> r == Success(book.(id := Some(id))) && records == old(records)[id := book.(id := Some(id))]
      ensures records.Keys == old(records).Keys
      ensures forall other | other in old(records) && other != id :: records[other] == old(records)[other]
    {
      if id !in records {
        return Failure(NotFound(BookNotFound(id)));
      }
      var updated := book.(id := Some(id));
      Repository.SaveCheckIgnoresId(book, Some(id));
      var refusal := Repository.SaveCheck(updated);
      if refusal.Some? {
        return Failure(SaveFailed(refusal.value));
      }
      records := records[id := updated];
      r := Success(updated);
    }

    /**
     * deleteBook: a missing id fails with BookNotFound and changes nothing. Otherwise exactly that
     * id is removed, so retrieving it afterwards gives nothing, and every other record stays.
     */
    method DeleteBook(id: int) returns (r: Outcome<BookNotFound>)
      requires Valid()
      modifies this
      ensures Valid()
      ensures nextId == old(nextId)
      ensures id !in old(records) ==> r == Fail(BookNotFound(id)) && records == old(records)
      ensures id in old(records) ==> r == Pass && records == old(records) - {id}
      ensures RetrieveBookById(id) == None
      ensures forall other | other in old(records) && other != id :: RetrieveBookById(other) == Some(old(records)[other])
    {
      if id !in records {
        return Fail(BookNotFound(id));
      }
      records := records - {id};
      r := Pass;
    }

    /**
     * searchBooks: the repository's title-or-author search with the arguments passed unchanged.
     * Since every stored record has a title, an omitted (empty) title returns every record.
     */
    function SearchBooks(title: string, author: string): (r: set<Book>)
      requires Valid()
      reads this
      ensures r == Repository.Search(records, title, author)
      ensures forall b | b in r :: b.id.Some? && RetrieveBookById(b.id.value) == Some(b)
      ensures title == "" ==> r == RetrieveAllBooks()
    {
      Repository.EmptyTitleReturnsAll(records, author);
      Repository.Search(records, title, author)
    }
  }

  /**
   * The integration tests' scenario: a created book can be read back and updated; once deleted it
   * is gone, and a second delete or an update of an unknown id reports the id as not found.
   */
  method CreateUpdateDeleteScenario(book: Book, changed: Book)
    returns (readBack: Option<Book>, missing: Result<Book, UpdateError>, gone: Option<Book>, again: Outcome<BookNotFound>)
    requires book.id.None?
    requires Repository.SaveCheck(book).None? && Repository.SaveCheck(changed).None?
    ensures readBack.Some? && readBack.value.id.Some?
    ensures readBack.value == changed.(id := readBack.value.id)
    ensures missing.Failure? && missing.error.NotFound?
    ensures gone == None
    ensures again.Fail? && again.error.id == readBack.value.id.value
  {
    var service := new BookService();
    var created := service.CreateBook(book);
    var id := created.value.id.value;
    assert service.RetrieveBookById(id) == Some(book.(id := Some(id)));

    var updated := service.UpdateBook(id, changed);
    assert updated == Success(changed.(id := Some(id)));
    readBack := service.RetrieveBookById(id);

    missing := service.UpdateBook(id + 1, changed);

    var deleted := service.DeleteBook(id);
    assert deleted == Pass;
    gone := service.RetrieveBookById(id);
    again := service.DeleteBook(id);
  }
}
