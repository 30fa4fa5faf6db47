/** The test database (2 genres, 2 authors, 16 books: books 1-10 by author 1
    in genre 1, books 11-16 by author 2 in genre 2) and the scenarios the
    repository tests run against it, proved of the model. */
module Fixture {
  import opened Common
  import opened Seqs
  import opened Text
  import opened Models
  import opened Catalog
  import opened BookStore
  import opened AuthorStore

  /** The fixture's dates ('03.12.2019', '03.12.1968', '03.12.1982') as Unix
      seconds at midnight UTC on 3 December of each year. */
  const Released := 1575331200
  const PotterBorn := -34041600
  const LaurenceBorn := 407721600

  const Genres: seq<Genre> := [Genre(1, "test_genre"), Genre(2, "test_genre 2")]

  const Authors: seq<Author> := [
    Author(1, "Potter", "Harry", PotterBorn, "bio"),
    Author(2, "Laurence", "Freddy", LaurenceBorn, "bio")]

  const BookNames: seq<string> := [
    "test book 1", "test book 2", "test book 3", "test book 4",
    "test book 5", "test book 6", "test book 7", "test book 8",
    "test book 9", "test book 10", "test book 11", "test book 12",
    "test book 13", "test book 14", "test book 15", "test book 16"]

  /** Fixture book `id`, owned by author `owner` and filed under genre `owner`. */
  function Row(id: int, owner: int): BookRow
    requires 1 <= id <= 16
  {
    BookRow(id, BookNames[id - 1], Released, 300, 150, "img.png", owner, owner)
  }

  const FirstTen: seq<BookRow> := seq(10, i requires 0 <= i < 10 => Row(i + 1, 1))
  const LastSix: seq<BookRow> := seq(6, i requires 0 <= i < 6 => Row(i + 11, 2))
  const Books: seq<BookRow> := FirstTen + LastSix

  /** The shape of the two blocks of books. */
  lemma FixtureRows()
    ensures |FirstTen| == 10 && |LastSix| == 6 && |Books| == 16
    ensures forall i :: 0 <= i < 10 ==> FirstTen[i].id == i + 1 && FirstTen[i].authorId == 1 && FirstTen[i].genreId == 1
    ensures forall i :: 0 <= i < 6 ==> LastSix[i].id == i + 11 && LastSix[i].authorId == 2 && LastSix[i].genreId == 2
    ensures forall i :: 0 <= i < 10 ==> Books[i] == FirstTen[i]
    ensures forall i :: 10 <= i < 16 ==> Books[i] == LastSix[i - 10]
  {
  }

  lemma FixtureKeyed()
    ensures Keyed(Genres, GenreKey) && Keyed(Authors, AuthorKey) && Keyed(Books, BookKey)
  {
    FixtureRows();
    assert forall i :: 0 <= i < 16 ==> Books[i].id == i + 1;
  }

  /** Author 1 and genre 1 exist, and so do author 2 and genre 2. */
  lemma FixtureParents()
    ensures ParentsExist(Genres, Authors, 1, 1) && ParentsExist(Genres, Authors, 2, 2)
  {
    assert AuthorKey(Authors[0]) == 1 && GenreKey(Genres[0]) == 1;
    assert AuthorKey(Authors[1]) == 2 && GenreKey(Genres[1]) == 2;
  }

  /** Every fixture book names an existing author and genre. */
  lemma FixtureParentsExist()
    ensures forall i :: 0 <= i < |Books| ==> ParentsExist(Genres, Authors, Books[i].authorId, Books[i].genreId)
  {
    FixtureRows();
    FixtureParents();
    forall i | 0 <= i < |Books| ensures ParentsExist(Genres, Authors, Books[i].authorId, Books[i].genreId) {
      if i < 10 { assert Books[i] == FirstTen[i]; } else { assert Books[i] == LastSix[i - 10]; }
    }
  }

  /** `GetPerPage(10, page)` on the fixture yields 10, 6 and 0 books for pages 1, 2 and 3. */
  lemma FixtureBookPages(nameOf: (string, string) -> string)
    ensures var all := Listing(Genres, Authors, nameOf, AllBooks, Books);
      && |Page(all, Offset(10, 1), 10)| == 10
      && |Page(all, Offset(10, 2), 10)| == 6
      && |Page(all, Offset(10, 3), 10)| == 0
  {
    FixtureParentsExist();
    ListingCountsEveryRow(Genres, Authors, nameOf, AllBooks, Books);
  }

  /** A filter that passes exactly the last six books lists six books. */
  lemma ListsLastSix(nameOf: (string, string) -> string, f: BookFilter)
    requires forall i :: 0 <= i < 10 ==> !Selects(f, FirstTen[i])
    requires forall i :: 0 <= i < 6 ==> Selects(f, LastSix[i])
    ensures |Listing(Genres, Authors, nameOf, f, Books)| == 6
  {
    FixtureRows();
    FixtureParents();
    ListingSplit(Genres, Authors, nameOf, f, FirstTen, LastSix);
    ListingOfUnselectedIsEmpty(Genres, Authors, nameOf, f, FirstTen);
    ListingCountsEveryRow(Genres, Authors, nameOf, f, LastSix);
  }

  /** For genre 2 and for author 2, page 1 of 10 holds the six books 11-16 and page 2 is empty. */
  lemma FixtureGenreAndAuthorPages(nameOf: (string, string) -> string)
    ensures var byGenre := Listing(Genres, Authors, nameOf, InGenre(2), Books);
      |Page(byGenre, Offset(10, 1), 10)| == 6 && |Page(byGenre, Offset(10, 2), 10)| == 0
    ensures var byAuthor := Listing(Genres, Authors, nameOf, ByAuthor(2), Books);
      |Page(byAuthor, Offset(10, 1), 10)| == 6 && |Page(byAuthor, Offset(10, 2), 10)| == 0
  {
    FixtureRows();
    ListsLastSix(nameOf, InGenre(2));
    ListsLastSix(nameOf, ByAuthor(2));
  }

  /** `GetPerPage(10, 1)` on the fixture's authors yields both; page 2 is empty. */
  lemma FixtureAuthorPages()
    ensures |Page(SortByLastName(Authors), Offset(10, 1), 10)| == 2
    ensures |Page(SortByLastName(Authors), Offset(10, 2), 10)| == 0
  {
  }

  /** No book name, genre name or author first name of the fixture is longer than 12 characters. */
  lemma FixtureNamesShort()
    ensures forall r :: r in Books ==> |r.name| <= 12
    ensures forall g :: g in Genres ==> |g.name| <= 12
    ensures forall a :: a in Authors ==> |a.firstName| <= 12
  {
    FixtureRows();
    assert forall j :: 0 <= j < 16 ==> |BookNames[j]| <= 12;
    forall r | r in Books ensures |r.name| <= 12 {
      var i :| 0 <= i < |Books| && Books[i] == r;
      if i < 10 { assert Books[i] == FirstTen[i]; } else { assert Books[i] == LastSix[i - 10]; }
    }
  }

  /** A term found in the first book's name, its genre's name or its author's
      first name makes the search non-empty. */
  lemma FirstBookFound(nameOf: (string, string) -> string, v: string)
    requires NoWildcards(v)
    requires Like("test book 1", v) || Like("test_genre", v) || Like("Harry", v)
    ensures Found(Genres, Authors, nameOf, v, Books) != []
  {
    FixtureRows();
    FixtureKeyed();
    var first := Books[0];
    assert first == Row(1, 1) && first.name == "test book 1";
    FindKeyOfRow(Authors, AuthorKey, 0);
    FindKeyOfRow(Genres, GenreKey, 0);
    var b := View(first, Authors[0], Genres[0], nameOf);
    assert SearchedRow(Genres, Authors, nameOf, v, first, b);
  }

  /** The empty search term finds books. */
  lemma FixtureSearchEmpty(nameOf: (string, string) -> string)
    ensures Found(Genres, Authors, nameOf, "", Books) != []
  {
    LikeEmpty("test book 1");
    FirstBookFound(nameOf, "");
  }

  /** "book" occurs in every book name, so searching for it finds books. */
  lemma FixtureSearchBook(nameOf: (string, string) -> string)
    ensures Found(Genres, Authors, nameOf, "book", Books) != []
  {
    assert OccursAt("test book 1", "book", 5);
    FirstBookFound(nameOf, "book");
  }

  /** "Harry", the first name of author 1, finds that author's books. */
  lemma FixtureSearchHarry(nameOf: (string, string) -> string)
    ensures Found(Genres, Authors, nameOf, "Harry", Books) != []
  {
    assert OccursAt("Harry", "Harry", 0);
    FirstBookFound(nameOf, "Harry");
  }

  /** "harry", in lower case, still finds book 1 of author Harry Potter: LIKE ignores ASCII case. */
  lemma FixtureSearchLowerHarry(nameOf: (string, string) -> string)
    ensures View(Books[0], Authors[0], Genres[0], nameOf) in Found(Genres, Authors, nameOf, "harry", Books)
  {
    FixtureRows();
    FixtureKeyed();
    assert OccursAt("Harry", "Harry", 0);
    LikeIgnoresAsciiCase("Harry", "Harry");
    assert FoldAscii("Harry") == "harry";
    FindKeyOfRow(Authors, AuthorKey, 0);
    FindKeyOfRow(Genres, GenreKey, 0);
    assert SearchedRow(Genres, Authors, nameOf, "harry", Books[0], View(Books[0], Authors[0], Genres[0], nameOf));
  }

  /** "not found book" is longer than every searched name, so it finds nothing. */
  lemma FixtureSearchMisses(nameOf: (string, string) -> string)
    ensures Found(Genres, Authors, nameOf, "not found book", Books) == []
  {
    var v := "not found book";
    var missing := Found(Genres, Authors, nameOf, v, Books);
    if missing != [] {
      var r :| r in Books && SearchedRow(Genres, Authors, nameOf, v, r, missing[0]);
      var a, g := FindByKey(Authors, AuthorKey, r.authorId).value, FindByKey(Genres, GenreKey, r.genreId).value;
      FixtureNamesShort();
    }
  }

  /** `SearchByName("arry")` finds Harry Potter; a term longer than every name finds nobody. */
  lemma FixtureAuthorSearches()
    ensures Filter(Authors, NameMatcher("arry")) != []
    ensures Filter(Authors, NameMatcher("invalid value for search")) == []
  {
    assert OccursAt("Harry", "arry", 1);
    SearchByNameMembership(Authors, "arry", Authors[0]);
    var v := "invalid value for search";
    forall i | 0 <= i < |Authors| ensures !NameMatcher(v)(Authors[i]) {
      assert |Authors[i].lastName| <= 8 && |Authors[i].firstName| <= 8;
    }
    FilterKeepsNone(Authors, NameMatcher(v));
  }

  /** A database holding the fixture. */
  method OpenFixture(nameOf: (string, string) -> string) returns (db: Database)
    ensures fresh(db) && db.Valid()
    ensures db.genres == Genres && db.authors == Authors && db.books == Books && db.authorLabel == nameOf
  {
    FixtureKeyed();
    db := new Database(Genres, Authors, Books, nameOf);
  }

  /** A delete naming a missing book, or book 1 with another owner, keeps every fixture book. */
  lemma FixtureDeleteMisses(id: int, authorId: int)
    requires id > 16 || (id == 1 && authorId != 1)
    ensures DeleteRows(Books, id, authorId) == Books
  {
    FixtureKeyed();
    FixtureRows();
    assert Books[0].authorId == 1;
    assert forall i :: 0 <= i < |Books| ==> Books[i].id == i + 1;
    DeleteEffect(Books, id, authorId);
  }

  /** The book delete tests that miss: a wrong id, a wrong owner or both
      change nothing, and are not errors. */
  method DeleteMissScenarios(nameOf: (string, string) -> string)
  {
    var db := OpenFixture(nameOf);
    var books := new BookRepository(db);
    FixtureDeleteMisses(99, 1);
    FixtureDeleteMisses(1, 99);
    FixtureDeleteMisses(99, 99);
    var outcome := books.Delete(99, 1);
    assert outcome == Done && db.books == Books;
    outcome := books.Delete(1, 99);
    assert db.books == Books;
    outcome := books.Delete(99, 99);
    assert db.books == Books;
  }

  /** Deleting book 1 of author 1 removes it: one book fewer, and reading it back fails. */
  method DeleteHitScenario(nameOf: (string, string) -> string)
  {
    var db := OpenFixture(nameOf);
    var books := new BookRepository(db);
    FixtureRows();
    assert Books[0].id == 1 && Books[0].authorId == 1;
    DeleteEffect(Books, 1, 1);
    var outcome := books.Delete(1, 1);
    assert |db.books| == 15;
    assert books.GetById(1) == Err(NoRows);
  }

  /** No author or genre of the fixture has an id above 2. */
  lemma FixtureParentMissing(id: int)
    requires id > 2
    ensures FindByKey(Authors, AuthorKey, id) == None && FindByKey(Genres, GenreKey, id) == None
  {
  }

  /** The book insert tests that fail: author 200, genre 900 or the all-zero book. */
  method AddScenarios(nameOf: (string, string) -> string)
  {
    FixtureParentMissing(200);
    FixtureParentMissing(900);
    NoRowWithKeyBelowOne(Authors, AuthorKey, 0);
    var db := OpenFixture(nameOf);
    var books := new BookRepository(db);
    var written, outcome := books.Add(Book(0, "Test book", Released, 250, 300, "img.png", 200, "", 1, ""));
    assert outcome == Failed(ForeignKeyViolation) && db.books == Books;
    written, outcome := books.Add(Book(0, "Test book", Released, 250, 300, "img.png", 1, "", 900, ""));
    assert outcome == Failed(ForeignKeyViolation) && db.books == Books;
    written, outcome := books.Add(Book(0, "", 0, 0, 0, "", 0, "", 0, ""));
    assert outcome == Failed(ForeignKeyViolation) && db.books == Books;
  }

  /** A valid book by author 1 in genre 1 is stored under a fresh, non-zero id. */
  method AddValidScenario(nameOf: (string, string) -> string)
  {
    var db := OpenFixture(nameOf);
    var books := new BookRepository(db);
    FixtureParents();
    var written, outcome := books.Add(Book(0, "Test book", Released, 250, 300, "img.png", 1, "", 1, ""));
    assert outcome == Done && written.id != 0;
  }

  /** The book update tests: book 1 takes valid new columns; then author 256
      and genre 234, which do not exist, make the update of book 1 fail and
      leave the table as it was. */
  method UpdateScenarios(nameOf: (string, string) -> string)
  {
    var db := OpenFixture(nameOf);
    var books := new BookRepository(db);
    FixtureRows();
    FixtureParents();
    FindKeyOfRow(Books, BookKey, 0);
    var valid := Book(1, "updating book", Released, 888, 999, "img.png2", 1, "", 1, "");
    var outcome := books.Update(valid);
    assert outcome == Done;
    UpdateEffect(Books, valid);
    assert FindByKey(db.books, BookKey, 1) == Some(Columns(valid, 1));
    var before := db.books;
    FixtureParentMissing(256);
    outcome := books.Update(Book(1, "updating book", 0, 888, 999, "", 256, "", 234, ""));
    assert outcome == Failed(ForeignKeyViolation) && db.books == before;
  }

  /** The book read tests: book 1 is found, book 99 is not. */
  method GetByIdScenarios(nameOf: (string, string) -> string)
  {
    var db := OpenFixture(nameOf);
    var books := new BookRepository(db);
    FixtureRows();
    FixtureParents();
    FindKeyOfRow(Books, BookKey, 0);
    assert books.GetById(1).Ok?;
    assert forall i :: 0 <= i < |Books| ==> Books[i].id <= 16;
    assert books.GetById(99) == Err(NoRows);
  }

  /** The author tests: id 0 is not found; two authors are counted; a new
      author can be read back, and after its deletion it is not found. */
  method AuthorScenarios(nameOf: (string, string) -> string)
  {
    var db := OpenFixture(nameOf);
    var authors := new AuthorRepository(db);
    assert authors.Get(0) == Err(NoRows) by { NoRowWithKeyBelowOne(Authors, AuthorKey, 0); }
    assert authors.Count() == 2 by { AscendingKeyCount(db.authors, AuthorKey); }
    var added := authors.Add(Author(0, "Test", "Author", LaurenceBorn, "Test bio"));
    assert authors.Get(added.id).Ok?;
    FindKeyOfRow(db.authors, AuthorKey, |db.authors| - 1);
    DeleteAuthorEffect(db.authors, added.id);
    var deleted := authors.Delete(added.id);
    assert authors.Get(added.id) == Err(NoRows);
  }

  /** The author update test: after the unscoped update, `Get(1)` returns the
      update itself, author 2 carries the same names, and there are still two authors. */
  method AuthorUpdateScenario(nameOf: (string, string) -> string)
  {
    var db := OpenFixture(nameOf);
    var authors := new AuthorRepository(db);
    var update := Author(1, "Test Author", "Test Author", 0, "Test Bio");
    FindKeyOfRow(Authors, AuthorKey, 0);
    OverwriteAllEffect(Authors, update);
    var outcome := authors.Update(update);
    assert authors.Get(1) == Ok(update);
    // Author 2 is overwritten too: the statement has no `WHERE`.
    FindKeyOfRow(db.authors, AuthorKey, 1);
    assert authors.Get(2) == Ok(update.(id := 2));
    assert authors.Count() == 2 by { AscendingKeyCount(db.authors, AuthorKey); }
  }
}
