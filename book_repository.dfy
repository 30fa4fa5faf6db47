/** The book repository (bookRepository): one SQL statement per operation,
    over the `book` table joined to `author` and `genre`. */
module BookStore {
  import opened Common
  import opened Seqs
  import opened Text
  import opened Models
  import opened Catalog

  /** One result row of the join: the stored columns, the engine's value of
      the author-name expression, and the name of the joined genre. */
  function View(r: BookRow, a: Author, g: Genre, nameOf: (string, string) -> string): (b: Book)
    ensures Columns(b, b.id) == r && b.genreName == g.name
    ensures b.authorName == nameOf(a.lastName, a.firstName)
  {
    Book(r.id, r.name, r.released, r.coast, r.pages, r.poster, r.authorId, nameOf(a.lastName, a.firstName), r.genreId, g.name)
  }

  /** `book b INNER JOIN author a ON a.id = b.author_id INNER JOIN genre g ON
      b.genre_id = g.id` for one book row: nothing when a parent row is missing. */
  function Join(genres: seq<Genre>, authors: seq<Author>, nameOf: (string, string) -> string, r: BookRow): (v: Option<Book>)
    ensures v.Some? <==> ParentsExist(genres, authors, r.authorId, r.genreId)
    ensures v.Some? ==> v.value.id == r.id && Columns(v.value, r.id) == r
  {
    match (FindByKey(authors, AuthorKey, r.authorId), FindByKey(genres, GenreKey, r.genreId))
    case (Some(a), Some(g)) => Some(View(r, a, g, nameOf))
    case _ => None
  }

  /** The `WHERE` clause of the three paged listings. */
  datatype BookFilter = AllBooks | InGenre(genreId: int) | ByAuthor(authorId: int)

  predicate Selects(f: BookFilter, r: BookRow) {
    match f
    case AllBooks => true
    case InGenre(g) => r.genreId == g
    case ByAuthor(a) => r.authorId == a
  }

  /** Row `r` of the table yields result `b` of a listing under filter `f`. */
  ghost predicate ListedRow(genres: seq<Genre>, authors: seq<Author>, nameOf: (string, string) -> string, f: BookFilter, r: BookRow, b: Book) {
    Selects(f, r) && Join(genres, authors, nameOf, r) == Some(b)
  }

  /** What one table row contributes to a listing: its joined row, if it passes `f`. */
  function ListHit(genres: seq<Genre>, authors: seq<Author>, nameOf: (string, string) -> string, f: BookFilter, r: BookRow): (out: seq<Book>)
    ensures |out| <= 1
    ensures forall b :: b in out <==> ListedRow(genres, authors, nameOf, f, r, b)
  {
    if !Selects(f, r) then []
    else match Join(genres, authors, nameOf, r)
      case Some(b) => [b]
      case None => []
  }

  /** The rows of a listing before `LIMIT`: the joined rows of `rows` that pass
      `f`, latest row first, i.e. in `ORDER BY b.id DESC` order when `rows` is
      in key order. */
  function Listing(genres: seq<Genre>, authors: seq<Author>, nameOf: (string, string) -> string, f: BookFilter, rows: seq<BookRow>): (out: seq<Book>)
    ensures |out| <= |rows|
  {
    if rows == [] then []
    else Listing(genres, authors, nameOf, f, rows[1..]) + ListHit(genres, authors, nameOf, f, rows[0])
  }

  /** A listing holds exactly the joined rows of the table that pass the filter. */
  lemma {:induction false} ListingMembership(genres: seq<Genre>, authors: seq<Author>, nameOf: (string, string) -> string, f: BookFilter, rows: seq<BookRow>)
    ensures forall k :: 0 <= k < |Listing(genres, authors, nameOf, f, rows)| ==>
      exists r :: r in rows && ListedRow(genres, authors, nameOf, f, r, Listing(genres, authors, nameOf, f, rows)[k])
    ensures forall r, b :: r in rows && ListedRow(genres, authors, nameOf, f, r, b) ==> b in Listing(genres, authors, nameOf, f, rows)
  {
    if rows != [] {
      ListingMembership(genres, authors, nameOf, f, rows[1..]);
      var rest := Listing(genres, authors, nameOf, f, rows[1..]);
      var hit := ListHit(genres, authors, nameOf, f, rows[0]);
      var out := rest + hit;
      assert Listing(genres, authors, nameOf, f, rows) == out;
      assert forall r :: r in rows ==> r == rows[0] || r in rows[1..];
      forall k | 0 <= k < |Listing(genres, authors, nameOf, f, rows)|
        ensures exists r :: r in rows && ListedRow(genres, authors, nameOf, f, r, Listing(genres, authors, nameOf, f, rows)[k])
      {
        if k < |rest| {
          var r :| r in rows[1..] && ListedRow(genres, authors, nameOf, f, r, rest[k]);
          assert r in rows && out[k] == rest[k];
        } else {
          assert out[k] == hit[0] && hit[0] in hit;
          assert ListedRow(genres, authors, nameOf, f, rows[0], out[k]);
        }
      }
    } else {
      assert Listing(genres, authors, nameOf, f, rows) == [];
    }
  }

  function BookId(b: Book): int { b.id }

  /** A lower bound on the ids of the rows also bounds every listed id. */
  lemma {:induction false} ListingIdsAbove(genres: seq<Genre>, authors: seq<Author>, nameOf: (string, string) -> string, f: BookFilter, rows: seq<BookRow>, bound: int)
    requires forall i :: 0 <= i < |rows| ==> rows[i].id > bound
    ensures forall k :: 0 <= k < |Listing(genres, authors, nameOf, f, rows)| ==> Listing(genres, authors, nameOf, f, rows)[k].id > bound
  {
    if rows != [] {
      ListingIdsAbove(genres, authors, nameOf, f, rows[1..], bound);
    }
  }

  /** Book ids strictly decrease along a listing of a key-ordered table. */
  lemma {:induction false} ListingDescending(genres: seq<Genre>, authors: seq<Author>, nameOf: (string, string) -> string, f: BookFilter, rows: seq<BookRow>)
    requires Ascending(rows, BookKey)
    ensures Descending(Listing(genres, authors, nameOf, f, rows), BookId)
  {
    if rows != [] {
      var tail := rows[1..];
      AscendingTail(rows, BookKey);
      ListingDescending(genres, authors, nameOf, f, tail);
      ListingIdsAbove(genres, authors, nameOf, f, tail, rows[0].id);
      var rest := Listing(genres, authors, nameOf, f, tail);
      var hit := ListHit(genres, authors, nameOf, f, rows[0]);
      if hit != [] {
        assert hit == [hit[0]] && hit[0] in hit;
        DescendingAppend(rest, hit[0], BookId);
      } else {
        assert rest + hit == rest;
      }
    }
  }

  /** A listing has no repeated book. */
  lemma ListingDistinct(genres: seq<Genre>, authors: seq<Author>, nameOf: (string, string) -> string, f: BookFilter, rows: seq<BookRow>)
    requires Ascending(rows, BookKey)
    ensures Distinct(Listing(genres, authors, nameOf, f, rows))
  {
    ListingDescending(genres, authors, nameOf, f, rows);
  }

  /** Under the foreign-key condition on every row, a filter that every row
      passes lists every row. */
  lemma {:induction false} ListingCountsEveryRow(genres: seq<Genre>, authors: seq<Author>, nameOf: (string, string) -> string, f: BookFilter, rows: seq<BookRow>)
    requires forall i :: 0 <= i < |rows| ==> Selects(f, rows[i]) && ParentsExist(genres, authors, rows[i].authorId, rows[i].genreId)
    ensures |Listing(genres, authors, nameOf, f, rows)| == |rows|
  {
    if rows != [] {
      ListingCountsEveryRow(genres, authors, nameOf, f, rows[1..]);
    }
  }

  /** A listing over rows none of which passes the filter is empty. */
  lemma {:induction false} ListingOfUnselectedIsEmpty(genres: seq<Genre>, authors: seq<Author>, nameOf: (string, string) -> string, f: BookFilter, rows: seq<BookRow>)
    requires forall i :: 0 <= i < |rows| ==> !Selects(f, rows[i])
    ensures Listing(genres, authors, nameOf, f, rows) == []
  {
    if rows != [] {
      ListingOfUnselectedIsEmpty(genres, authors, nameOf, f, rows[1..]);
    }
  }

  /** Listing a table split in two: the later (higher-id) part comes first. */
  lemma {:induction false} ListingSplit(genres: seq<Genre>, authors: seq<Author>, nameOf: (string, string) -> string, f: BookFilter, lo: seq<BookRow>, hi: seq<BookRow>)
    ensures Listing(genres, authors, nameOf, f, lo + hi)
         == Listing(genres, authors, nameOf, f, hi) + Listing(genres, authors, nameOf, f, lo)
  {
    if lo == [] {
      assert lo + hi == hi;
    } else {
      var hit := ListHit(genres, authors, nameOf, f, lo[0]);
      assert (lo + hi)[0] == lo[0] && (lo + hi)[1..] == lo[1..] + hi;
      assert Listing(genres, authors, nameOf, f, lo + hi) == Listing(genres, authors, nameOf, f, lo[1..] + hi) + hit;
      ListingSplit(genres, authors, nameOf, f, lo[1..], hi);
      assert Listing(genres, authors, nameOf, f, lo) == Listing(genres, authors, nameOf, f, lo[1..]) + hit;
    }
  }

  /** The condition of the search statement on one joined row (`value` is `'%' + v + '%'`):
      `b.name LIKE value OR g.name LIKE value OR a.first_name LIKE value OR a.first_name = value`. */
  predicate SearchCondition(v: string, r: BookRow, a: Author, g: Genre)
    requires NoWildcards(v)
    ensures SearchCondition(v, r, a, g) <==> Like(r.name, v) || Like(g.name, v) || Like(a.firstName, v)
  {
    WrappedPatternMatches(v);
    Like(r.name, v) || Like(g.name, v) || Like(a.firstName, v) || a.firstName == "%" + v + "%"
  }

  /** Row `r` yields result `b` of a search for `v`: the row joins, and `v` occurs in
      the book's name, the genre's name or the author's first name. The last name is
      not consulted. */
  ghost predicate SearchedRow(genres: seq<Genre>, authors: seq<Author>, nameOf: (string, string) -> string, v: string, r: BookRow, b: Book)
    requires NoWildcards(v)
  {
    var a, g := FindByKey(authors, AuthorKey, r.authorId), FindByKey(genres, GenreKey, r.genreId);
    && a.Some? && g.Some?
    && b == View(r, a.value, g.value, nameOf)
    && (Like(r.name, v) || Like(g.value.name, v) || Like(a.value.firstName, v))
  }

  /** What one table row contributes to a search. The literal comparison
      `a.first_name = '%v%'` adds nothing: such a first name contains `v`. */
  function SearchHit(genres: seq<Genre>, authors: seq<Author>, nameOf: (string, string) -> string, v: string, r: BookRow): (out: seq<Book>)
    requires NoWildcards(v)
    ensures |out| <= 1
    ensures forall b :: b in out <==> SearchedRow(genres, authors, nameOf, v, r, b)
  {
    match (FindByKey(authors, AuthorKey, r.authorId), FindByKey(genres, GenreKey, r.genreId))
    case (Some(a), Some(g)) =>
      if a.firstName == "%" + v + "%" then WrappedPatternMatches(v); [View(r, a, g, nameOf)]
      else if SearchCondition(v, r, a, g) then [View(r, a, g, nameOf)]
      else []
    case _ => []
  }

  /** The result of the search statement: the matching joined rows in table order. */
  function Found(genres: seq<Genre>, authors: seq<Author>, nameOf: (string, string) -> string, v: string, rows: seq<BookRow>): (out: seq<Book>)
    requires NoWildcards(v)
    ensures |out| <= |rows|
    ensures forall k :: 0 <= k < |out| ==> exists r :: r in rows && SearchedRow(genres, authors, nameOf, v, r, out[k])
    ensures forall r, b :: r in rows && SearchedRow(genres, authors, nameOf, v, r, b) ==> b in out
  {
    if rows == [] then []
    else
      var init, last := rows[..|rows| - 1], rows[|rows| - 1];
      var earlier := Found(genres, authors, nameOf, v, init);
      var hit := SearchHit(genres, authors, nameOf, v, last);
      var out := earlier + hit;
      assert forall r :: r in init ==> r in rows;
      assert forall r :: r in rows ==> r == last || r in init;
      assert forall k :: 0 <= k < |out| ==> exists r :: r in rows && SearchedRow(genres, authors, nameOf, v, r, out[k]) by {
        forall k | 0 <= k < |out| ensures exists r :: r in rows && SearchedRow(genres, authors, nameOf, v, r, out[k]) {
          if k < |earlier| {
            assert out[k] == earlier[k];
          } else {
            assert out[k] == hit[0] && hit[0] in hit;
            assert SearchedRow(genres, authors, nameOf, v, last, out[k]);
          }
        }
      }
      out
  }

  /** Scanning one more row extends the search result by that row's hit. */
  lemma FoundAppend(genres: seq<Genre>, authors: seq<Author>, nameOf: (string, string) -> string, v: string, rows: seq<BookRow>, x: BookRow)
    requires NoWildcards(v)
    ensures Found(genres, authors, nameOf, v, rows + [x])
         == Found(genres, authors, nameOf, v, rows) + SearchHit(genres, authors, nameOf, v, x)
  {
    var s := rows + [x];
    assert s[..|s| - 1] == rows && s[|s| - 1] == x;
  }

  /** An empty search term matches every row whose author and genre exist. */
  lemma EmptySearchFindsEveryJoinedRow(genres: seq<Genre>, authors: seq<Author>, nameOf: (string, string) -> string, rows: seq<BookRow>, r: BookRow)
    requires r in rows && ParentsExist(genres, authors, r.authorId, r.genreId)
    ensures Join(genres, authors, nameOf, r).value in Found(genres, authors, nameOf, "", rows)
  {
    LikeEmpty(r.name);
  }

  class BookRepository {
    const db: Database

    constructor (db: Database)
      ensures this.db == db
    {
      this.db := db;
    }

    /** `INSERT INTO book(...)`, then `b.Id = LastInsertId()`. */
    method Add(b: Book) returns (written: Book, outcome: Outcome)
      requires db.Valid()
      modifies db`books
      ensures db.Valid()
      ensures outcome.Done? <==> ParentsExist(db.genres, db.authors, b.authorId, b.genreId)
      ensures outcome.Failed? ==> outcome.error == ForeignKeyViolation && written == b && db.books == old(db.books)
      ensures outcome.Done? ==>
        && written == b.(id := written.id)
        && written.id >= 1
        && written.id !in KeySet(old(db.books), BookKey)
        && db.books == old(db.books) + [Columns(b, written.id)]
        && GetById(written.id).Ok?
        && Columns(GetById(written.id).value, written.id) == Columns(b, written.id)
    {
      if !ParentsExist(db.genres, db.authors, b.authorId, b.genreId) {
        return b, Failed(ForeignKeyViolation);
      }
      var id := NextKey(db.books, BookKey);
      var row := Columns(b, id);
      AppendNextKey(db.books, BookKey, row);
      db.books := db.books + [row];
      FindKeyOfRow(db.books, BookKey, |db.books| - 1);
      written, outcome := b.(id := id), Done;
    }

    /** `SELECT ... FROM book b INNER JOIN author a ... INNER JOIN genre g ... WHERE b.id = ?`. */
    function GetById(id: int): (r: Result<Book>)
      reads db
      ensures var row := FindByKey(db.books, BookKey, id);
        r.Ok? <==> row.Some? && ParentsExist(db.genres, db.authors, row.value.authorId, row.value.genreId)
      ensures r.Ok? ==> r.value.id == id && Some(Columns(r.value, id)) == FindByKey(db.books, BookKey, id)
      ensures r.Ok? ==> var a, g := FindByKey(db.authors, AuthorKey, r.value.authorId), FindByKey(db.genres, GenreKey, r.value.genreId);
        && a.Some? && g.Some?
        && r.value.genreName == g.value.name
        && r.value.authorName == db.authorLabel(a.value.lastName, a.value.firstName)
      ensures r.Err? ==> r.error == NoRows
    {
      match FindByKey(db.books, BookKey, id)
      case None => Err(NoRows)
      case Some(row) =>
        match Join(db.genres, db.authors, db.authorLabel, row)
        case Some(b) => Ok(b)
        case None => Err(NoRows)
    }

    /** `UPDATE book SET name, poster, coast, pages, released, author_id, genre_id WHERE id = ?`. */
    method Update(b: Book) returns (outcome: Outcome)
      requires db.Valid()
      modifies db`books
      ensures db.Valid()
      ensures outcome.Failed? <==>
        FindByKey(old(db.books), BookKey, b.id).Some? && !ParentsExist(db.genres, db.authors, b.authorId, b.genreId)
      ensures outcome.Failed? ==> outcome.error == ForeignKeyViolation && db.books == old(db.books)
      ensures outcome.Done? ==> db.books == UpdateRows(old(db.books), b)
    {
      if FindByKey(db.books, BookKey, b.id).Some? && !ParentsExist(db.genres, db.authors, b.authorId, b.genreId) {
        return Failed(ForeignKeyViolation);
      }
      UpdateKeepsTableKeyed(db.books, b);
      db.books := UpdateRows(db.books, b);
      outcome := Done;
    }

    /** `DELETE FROM book WHERE id = ? AND author_id = ?`; no match is not an error. */
    method Delete(id: int, authorId: int) returns (outcome: Outcome)
      requires db.Valid()
      modifies db`books
      ensures db.Valid()
      ensures outcome == Done
      ensures db.books == DeleteRows(old(db.books), id, authorId)
    {
      FilterKeyed(db.books, Survives(id, authorId), BookKey);
      db.books := DeleteRows(db.books, id, authorId);
      outcome := Done;
    }

    /** `SELECT COUNT(id) FROM book`: the number of distinct stored ids. */
    function Count(): (n: nat)
      reads db
      requires db.Valid()
      ensures n == |KeySet(db.books, BookKey)|
    {
      AscendingKeyCount(db.books, BookKey);
      |db.books|
    }

    /** The shared shape of the three paged listings: walk the table from the
        highest id down (`ORDER BY b.id DESC`), keep the joined rows `f` selects,
        skip the first `offset` of them and append at most `perPage`. */
    method List(f: BookFilter, perPage: int, page: int) returns (books: seq<Book>)
      requires perPage >= 0 && page >= 1
      ensures books == Page(Listing(db.genres, db.authors, db.authorLabel, f, db.books), Offset(perPage, page), perPage)
    {
      var offset := Offset(perPage, page);
      var rows := db.books;
      var matched := 0;
      books := [];
      var i := |rows|;
      while i > 0
        invariant 0 <= i <= |rows|
        invariant matched == |Listing(db.genres, db.authors, db.authorLabel, f, rows[i..])|
        invariant books == Page(Listing(db.genres, db.authors, db.authorLabel, f, rows[i..]), offset, perPage)
      {
        i := i - 1;
        ghost var seen := Listing(db.genres, db.authors, db.authorLabel, f, rows[i + 1..]);
        var hit := ListHit(db.genres, db.authors, db.authorLabel, f, rows[i]);
        assert rows[i..][1..] == rows[i + 1..];
        assert Listing(db.genres, db.authors, db.authorLabel, f, rows[i..]) == seen + hit;
        if hit != [] {
          PageExtend(seen, hit[0], offset, perPage);
          assert hit == [hit[0]];
          if offset <= matched < offset + perPage {
            books := books + hit;
          }
          matched := matched + 1;
        } else {
          assert seen + hit == seen;
        }
      }
      assert rows[0..] == rows;
    }

    /** `GetPerPage(perPage, page)`: every book, highest id first, one page. */
    method GetPerPage(perPage: int, page: int) returns (books: seq<Book>)
      requires perPage >= 0 && page >= 1
      ensures books == Page(Listing(db.genres, db.authors, db.authorLabel, AllBooks, db.books), Offset(perPage, page), perPage)
    {
      books := List(AllBooks, perPage, page);
    }

    /** `GetByGenre(idGenre, perPage, page)`: the books of one genre, highest id first, one page. */
    method GetByGenre(genreId: int, perPage: int, page: int) returns (books: seq<Book>)
      requires perPage >= 0 && page >= 1
      ensures books == Page(Listing(db.genres, db.authors, db.authorLabel, InGenre(genreId), db.books), Offset(perPage, page), perPage)
    {
      books := List(InGenre(genreId), perPage, page);
    }

    /** `GetByAuthor(idAuthor, perPage, page)`: the books of one author, highest id first, one page. */
    method GetByAuthor(authorId: int, perPage: int, page: int) returns (books: seq<Book>)
      requires perPage >= 0 && page >= 1
      ensures books == Page(Listing(db.genres, db.authors, db.authorLabel, ByAuthor(authorId), db.books), Offset(perPage, page), perPage)
    {
      books := List(ByAuthor(authorId), perPage, page);
    }

    /** `Search(value)`: the joined rows whose book name, genre name or author
        first name contains `v`, appended in table order. */
    method Search(v: string) returns (books: seq<Book>)
      requires NoWildcards(v)
      ensures books == Found(db.genres, db.authors, db.authorLabel, v, db.books)
    {
      var rows := db.books;
      books := [];
      var i := 0;
      while i < |rows|
        invariant 0 <= i <= |rows|
        invariant books == Found(db.genres, db.authors, db.authorLabel, v, rows[..i])
      {
        assert rows[..i + 1] == rows[..i] + [rows[i]];
        FoundAppend(db.genres, db.authors, db.authorLabel, v, rows[..i], rows[i]);
        books := books + SearchHit(db.genres, db.authors, db.authorLabel, v, rows[i]);
        i := i + 1;
      }
      assert rows[..|rows|] == rows;
    }
  }

  /** The overwrite of `UPDATE book ... WHERE id = b.id`: the row with that id
      takes `b`'s columns, every other row stays as it was. */
  function UpdateRows(rows: seq<BookRow>, b: Book): (r: seq<BookRow>)
    ensures |r| == |rows|
    ensures forall i :: 0 <= i < |r| ==> r[i].id == rows[i].id
  {
    seq(|rows|, i requires 0 <= i < |rows| => if rows[i].id == b.id then Columns(b, b.id) else rows[i])
  }

  lemma UpdateKeepsTableKeyed(rows: seq<BookRow>, b: Book)
    requires Keyed(rows, BookKey)
    ensures Keyed(UpdateRows(rows, b), BookKey)
  {
  }

  /** The row a delete by id and owner keeps. */
  function Survives(id: int, authorId: int): BookRow -> bool {
    (r: BookRow) => !(r.id == id && r.authorId == authorId)
  }

  /** `DELETE FROM book WHERE id = ? AND author_id = ?`. */
  function DeleteRows(rows: seq<BookRow>, id: int, authorId: int): (r: seq<BookRow>)
    ensures forall i :: 0 <= i < |r| ==> r[i] in rows && !(r[i].id == id && r[i].authorId == authorId)
    ensures forall i :: 0 <= i < |rows| && !(rows[i].id == id && rows[i].authorId == authorId) ==> rows[i] in r
  {
    Filter(rows, Survives(id, authorId))
  }

  /** Updating the stored book `k` gives it the new columns, which read back by its id. */
  lemma UpdateHit(rows: seq<BookRow>, b: Book, k: int)
    requires Keyed(rows, BookKey) && 0 <= k < |rows| && rows[k].id == b.id
    ensures FindByKey(UpdateRows(rows, b), BookKey, b.id) == Some(Columns(b, b.id))
  {
    var r := UpdateRows(rows, b);
    UpdateKeepsTableKeyed(rows, b);
    assert r[k] == Columns(b, b.id);
    FindKeyOfRow(r, BookKey, k);
  }

  /** Updating an existing book overwrites its columns and leaves every other
      row alone; updating an id that is not stored changes nothing. */
  lemma UpdateEffect(rows: seq<BookRow>, b: Book)
    requires Keyed(rows, BookKey)
    ensures var r := UpdateRows(rows, b);
      && Keyed(r, BookKey)
      && (FindByKey(rows, BookKey, b.id).Some? ==> FindByKey(r, BookKey, b.id) == Some(Columns(b, b.id)))
      && (FindByKey(rows, BookKey, b.id).None? ==> r == rows)
      && (forall i :: 0 <= i < |rows| && rows[i].id != b.id ==> r[i] == rows[i])
  {
    var r := UpdateRows(rows, b);
    UpdateKeepsTableKeyed(rows, b);
    if FindByKey(rows, BookKey, b.id).Some? {
      var k :| 0 <= k < |rows| && BookKey(rows[k]) == b.id;
      UpdateHit(rows, b, k);
    } else {
      assert forall i :: 0 <= i < |rows| ==> r[i] == rows[i];
    }
  }

  /** Deleting the stored book `k` by its id and owner removes that row only:
      one row fewer, and its id is found no more. */
  lemma DeleteHit(rows: seq<BookRow>, k: int)
    requires Keyed(rows, BookKey) && 0 <= k < |rows|
    ensures var r := DeleteRows(rows, rows[k].id, rows[k].authorId);
      |r| == |rows| - 1 && FindByKey(r, BookKey, rows[k].id) == None
  {
    var p := Survives(rows[k].id, rows[k].authorId);
    forall i | 0 <= i < |rows| && i != k ensures p(rows[i]) {
      assert rows[i].id != rows[k].id by {
        if i < k { assert rows[i].id < rows[k].id; } else { assert rows[k].id < rows[i].id; }
      }
    }
    FilterDropsOne(rows, p, k);
    var r := DeleteRows(rows, rows[k].id, rows[k].authorId);
    forall j | 0 <= j < |r| ensures r[j].id != rows[k].id {
      var m :| 0 <= m < |rows| && rows[m] == r[j];
      assert m != k ==> rows[m].id != rows[k].id;
    }
  }

  /** A delete whose id and owner match a stored book removes exactly that book:
      one row fewer, and the id is found no more. Otherwise nothing changes. */
  lemma DeleteEffect(rows: seq<BookRow>, id: int, authorId: int)
    requires Keyed(rows, BookKey)
    ensures var r := DeleteRows(rows, id, authorId);
      && Keyed(r, BookKey)
      && ((exists i :: 0 <= i < |rows| && rows[i].id == id && rows[i].authorId == authorId) ==>
            |r| == |rows| - 1 && FindByKey(r, BookKey, id) == None)
      && (!(exists i :: 0 <= i < |rows| && rows[i].id == id && rows[i].authorId == authorId) ==> r == rows)
  {
    FilterKeyed(rows, Survives(id, authorId), BookKey);
    if k :| 0 <= k < |rows| && rows[k].id == id && rows[k].authorId == authorId {
      DeleteHit(rows, k);
    } else {
      FilterKeepsAll(rows, Survives(id, authorId));
    }
  }
}
