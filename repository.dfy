/**
 * The record store, keyed by id, and its one declared query: books whose title contains the
 * title argument, ignoring case, OR whose author contains the author argument, ignoring case.
 * A null field contains nothing; results are sets because the store's order is unspecified.
 */
module Repository {
  import opened Wrappers
  import opened Text
  import opened Entity

  /** The stored records, one per id. */
  type Store = map<int, Book>

  /** Each record sits under its own id. */
  ghost predicate KeyedById(store: Store) {
    forall id | id in store :: store[id].id == Some(id)
  }

  /** The title column's declared length. */
  const TitleColumnLength := 180

  /**
   * The column constraints the store enforces on save: the title column is NOT NULL and holds at
   * most 180 characters. Validation does not check the length, so a longer title reaches the store.
   */
  predicate FitsColumns(b: Book) {
    b.title.Some? && |b.title.value| <= TitleColumnLength
  }

  /**
   * Why the store refuses a save. The entity's bean-validation constraints are checked before every
   * insert and update, reporting all violations; a book that passes them can still break a column.
   */
  datatype SaveError = ConstraintViolation(violations: set<Violation>) | DataIntegrityViolation

  /** The store's checks on save, in the order it applies them; None when the save goes through. */
  function SaveCheck(b: Book): (r: Option<SaveError>)
    ensures r.None? <==> Violations(b) == {} && FitsColumns(b)
  {
    if Violations(b) != {} then Some(ConstraintViolation(Violations(b)))
    else if !FitsColumns(b) then Some(DataIntegrityViolation)
    else None
  }

  /** A null title never reaches the NOT NULL column: validation refuses it first, naming the title. */
  lemma NullTitleRefusedByValidation(b: Book)
    requires b.title.None?
    ensures SaveCheck(b).Some? && SaveCheck(b).value.ConstraintViolation?
    ensures Violation(Title, TitleRequired) in SaveCheck(b).value.violations
  {
    assert TitleRequired in FieldMessages(b, Title);
  }

  /** The column refuses exactly the valid books whose title is longer than its declared length. */
  lemma ColumnRefusesOnlyLongTitles(b: Book)
    ensures SaveCheck(b) == Some(DataIntegrityViolation)
        <==> Violations(b) == {} && |b.title.value| > TitleColumnLength
  {
    if Violations(b) == {} {
      assert TitleRequired !in FieldMessages(b, Title);
    }
  }

  /** The validator ignores the id, so forcing an id does not change what a save decides. */
  lemma SaveCheckIgnoresId(b: Book, id: Option<int>)
    ensures SaveCheck(b.(id := id)) == SaveCheck(b)
  {
  }

  /** Every stored record passed the store's checks on save. */
  ghost predicate AllStorable(store: Store) {
    forall id | id in store :: SaveCheck(store[id]).None?
  }

  /** findAll: every stored record. */
  function FindAll(store: Store): set<Book> {
    set id | id in store :: store[id]
  }

  /** A store without ids is empty; otherwise some id can be picked from it. */
  lemma SomeId(store: Store)
    ensures store == map[] || exists id :: id in store
  {
    if !exists id :: id in store {
      assert store == map[];
    }
  }

  /** A store keyed by id holds one record per id: findAll returns as many records as there are ids. */
  lemma {:induction false} OneRecordPerId(store: Store)
    requires KeyedById(store)
    ensures |FindAll(store)| == |store|
    decreases |store|
  {
    SomeId(store);
    if store != map[] {
      var id :| id in store;
      var rest := store - {id};
      OneRecordPerId(rest);
      forall b | b in FindAll(store) ensures b in FindAll(rest) + {store[id]} {
        var k :| k in store && store[k] == b;
        if k != id {
          assert rest[k] == b;
        }
      }
      forall b | b in FindAll(rest) ensures b in FindAll(store) && b != store[id] {
        var k :| k in rest && rest[k] == b;
        assert store[k] == b;
      }
      assert FindAll(store) == FindAll(rest) + {store[id]};
      assert store.Keys == rest.Keys + {id};
    }
  }

  /** The "ContainingIgnoreCase" condition on one field. */
  predicate ContainingIgnoreCase(field: Option<string>, arg: string) {
    field.Some? && Contains(Lower(field.value), Lower(arg))
  }

  predicate Matches(b: Book, title: string, author: string) {
    ContainingIgnoreCase(b.title, title) || ContainingIgnoreCase(b.author, author)
  }

  /** findByTitleContainingIgnoreCaseOrAuthorContainingIgnoreCase. */
  function Search(store: Store, title: string, author: string): (r: set<Book>)
    ensures r <= FindAll(store)
    ensures forall id | id in store :: store[id] in r <==> Matches(store[id], title, author)
  {
    set id | id in store && Matches(store[id], title, author) :: store[id]
  }

  /** The two fields the query inspects. */
  datatype SearchField = TitleField | AuthorField

  function FieldText(b: Book, f: SearchField): Option<string> {
    match f
    case TitleField => b.title
    case AuthorField => b.author
  }

  /** The books matched through one field alone. */
  function FieldMatches(store: Store, f: SearchField, arg: string): (r: set<Book>)
    ensures r <= FindAll(store)
  {
    set id | id in store && ContainingIgnoreCase(FieldText(store[id], f), arg) :: store[id]
  }

  /** The search is the union of the two single-field matches (OR, not AND). */
  lemma SearchIsUnion(store: Store, title: string, author: string)
    ensures Search(store, title, author) == FieldMatches(store, TitleField, title) + FieldMatches(store, AuthorField, author)
  {
  }

  /** Arguments that differ only in the case of letters give the same result. */
  lemma SearchIgnoresCase(store: Store, title: string, title': string, author: string, author': string)
    requires SameIgnoringCase(title, title') && SameIgnoringCase(author, author')
    ensures Search(store, title, author) == Search(store, title', author')
  {
    LowerOfSameIgnoringCase(title, title');
    LowerOfSameIgnoringCase(author, author');
  }

  /** An empty title argument matches every record that has a title, whatever the author argument. */
  lemma EmptyTitleMatchesEveryTitled(store: Store, author: string)
    ensures forall id | id in store && store[id].title.Some? :: store[id] in Search(store, "", author)
  {
    forall id | id in store && store[id].title.Some?
      ensures store[id] in Search(store, "", author)
    {
      ContainsEmpty(Lower(store[id].title.value));
    }
  }

  /** An empty author argument matches every record that has an author, whatever the title argument. */
  lemma EmptyAuthorMatchesEveryAuthored(store: Store, title: string)
    ensures forall id | id in store && store[id].author.Some? :: store[id] in Search(store, title, "")
  {
    forall id | id in store && store[id].author.Some?
      ensures store[id] in Search(store, title, "")
    {
      ContainsEmpty(Lower(store[id].author.value));
    }
  }

  /** When every record has a title (as every valid book does), an empty title argument returns findAll. */
  lemma EmptyTitleReturnsAll(store: Store, author: string)
    requires forall id | id in store :: store[id].title.Some?
    ensures Search(store, "", author) == FindAll(store)
  {
    EmptyTitleMatchesEveryTitled(store, author);
    forall b | b in FindAll(store) ensures b in Search(store, "", author) {
      var id :| id in store && store[id] == b;
    }
  }

  /** Growing either argument can only shrink the set of books matched through its field. */
  lemma LongerArgumentMatchesFewer(store: Store, f: SearchField, arg: string, longer: string)
    requires Contains(longer, arg)
    ensures FieldMatches(store, f, longer) <= FieldMatches(store, f, arg)
  {
    LowerKeepsContains(longer, arg);
    forall id | id in store && ContainingIgnoreCase(FieldText(store[id], f), longer)
      ensures ContainingIgnoreCase(FieldText(store[id], f), arg)
    {
      ContainsTransitive(Lower(FieldText(store[id], f).value), Lower(longer), Lower(arg));
    }
  }
}
