/** The database the repositories share: the `genre`, `author` and `book`
    tables, each kept in primary-key order as SQLite stores a rowid table,
    with foreign-key enforcement switched on. */
module Catalog {
  import opened Common
  import opened Seqs
  import opened Models

  datatype Genre = Genre(id: int, name: string)

  /** A row of the `book` table: exactly the columns the statements write. */
  datatype BookRow = BookRow(
    id: int,
    name: string,
    released: int,
    coast: nat,
    pages: nat,
    poster: string,
    authorId: int,
    genreId: int)

  function GenreKey(g: Genre): int { g.id }

  function AuthorKey(a: Author): int { a.id }

  function BookKey(r: BookRow): int { r.id }

  /** The columns the INSERT and UPDATE statements take from `b`, stored under key `id`. */
  function Columns(b: Book, id: int): (r: BookRow)
    ensures r.id == id && r.authorId == b.authorId && r.genreId == b.genreId
  {
    BookRow(id, b.name, b.release, b.coast, b.pages, b.posterUrl, b.authorId, b.genreId)
  }

  /** The foreign-key condition on a book row: its author and its genre exist. */
  predicate ParentsExist(genres: seq<Genre>, authors: seq<Author>, authorId: int, genreId: int)
    ensures ParentsExist(genres, authors, authorId, genreId) <==>
      (exists i :: 0 <= i < |authors| && authors[i].id == authorId) &&
      (exists j :: 0 <= j < |genres| && genres[j].id == genreId)
  {
    FindByKey(authors, AuthorKey, authorId).Some? && FindByKey(genres, GenreKey, genreId).Some?
  }

  /** A keyed table holds no row with a non-positive key: the zero ids of an
      empty `Book{}` never name a parent. */
  lemma NoRowWithKeyBelowOne<T>(s: seq<T>, key: T -> int, k: int)
    requires Keyed(s, key) && k < 1
    ensures FindByKey(s, key, k) == None
  {
  }

  class Database {
    var genres: seq<Genre>
    var authors: seq<Author>
    var books: seq<BookRow>
    /** What the engine makes of `a.last_name + ' ' + a.first_name` for one
        author; the statements' result column `AuthorName` is left uninterpreted. */
    const authorLabel: (string, string) -> string

    /** Each table is stored in increasing order of a positive primary key. */
    ghost predicate Valid()
      reads this
    {
      Keyed(genres, GenreKey) && Keyed(authors, AuthorKey) && Keyed(books, BookKey)
    }

    constructor (genres: seq<Genre>, authors: seq<Author>, books: seq<BookRow>, authorLabel: (string, string) -> string)
      requires Keyed(genres, GenreKey) && Keyed(authors, AuthorKey) && Keyed(books, BookKey)
      ensures Valid()
      ensures this.genres == genres && this.authors == authors && this.books == books
      ensures this.authorLabel == authorLabel
    {
      this.genres := genres;
      this.authors := authors;
      this.books := books;
      this.authorLabel := authorLabel;
    }
  }
}
