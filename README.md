# bookland catalogue core, modelled in Dafny

bookland is a Go web service for a book catalogue kept in SQLite. This
project models three parts of it:

- the book validator `Book.IsValid`;
- the book repository (`bookRepository`): insert, read by id, update,
  delete by id and owner, count, three paged listings and a search;
- the author repository (`AuthorRepository`): read by id, insert, update,
  delete, count, search by name and a paged listing.

Each repository method runs one SQL statement. The model replaces the
engine with a `Catalog.Database` object. It holds the `genre`, `author` and
`book` tables as sequences of rows. Each table is kept in strictly
increasing order of a positive primary key, as SQLite stores a rowid table.
Foreign keys are enforced on book insert and update.

The statements become Dafny as follows:

- An insert appends a row under the next key, one past the largest.
- `UPDATE ... WHERE id = ?` rewrites the matching row.
- A `DELETE` filters the table.
- `COUNT(id)` is the number of stored ids.
- The joined reads follow `INNER JOIN` literally: a book whose author or
  genre row is missing is not returned.
- `ORDER BY b.id DESC LIMIT offset, perPage` becomes a walk of the table
  from the top. The walk skips `offset = (page - 1) * perPage` matching
  rows and appends at most `perPage`.
- Author paging sorts by `last_name` under the BINARY collation, then
  takes the same slice.
- `LIKE '%v%'` is case-insensitive containment for ASCII letters.

The repository methods are methods of `BookStore.BookRepository` and
`AuthorStore.AuthorRepository`. Each one is proved against a pure
specification function: `Listing`, `Found`, `UpdateRows`, `DeleteRows`,
`OverwriteAll`, `DeleteAuthorRows`, `SortByLastName` and `Page`. Lemmas
prove what those functions promise:

- a listing is in strictly descending id order and holds no duplicates;
- consecutive pages share no book;
- a search finds exactly the rows whose book name, genre name or author
  first name contains the term;
- a delete removes exactly the one matching row, or nothing;
- an update rewrites exactly the row with that id and keeps the table keyed.

`Fixture` replays the repository tests on the test database (2 genres, 2
authors, 16 books). It proves the page sizes 10/6/0 and 6/0, the search
outcomes, the delete, insert and update outcomes, and the author count.

The author update statement has no `WHERE` clause. `OverwriteAll` and
`AuthorRepository.Update` model it as written: every author row takes the
new names, birthday and bio, and keeps its own id. `Fixture.AuthorUpdateScenario`
shows author 2 overwritten along with author 1. The test that reads back
author 1 still holds (`OverwriteAllEffect`).

Files: `common.dfy` (Option, Result, error kinds), `seqs.dfy` (keyed tables,
filtering, paging), `text.dfy` (LIKE and collation), `models.dfy` (records
and the validator), `catalog.dfy` (the database), `book_repository.dfy`,
`author_repository.dfy`, `fixture.dfy`.

## Model

| member | source | states |
|---|---|---|
| Models.IsValid | internal/models/book.go:18-43 | a book is accepted iff its name is non-empty, its release is strictly before `now`, coast and pages are non-zero and both ids are positive; the message is empty iff the book is accepted |
| Models.IsValidReportsFirstBrokenRule | internal/models/book.go:18-43 | the reported message is that of the first broken rule in the order name, release, coast, pages, author_id, genre_id |
| Models.FirstBroken | internal/models/book.go:18-43 | no message iff every rule of the ordered list holds |
| Models.RejectionHasMessage | internal/models/book.go:19-41 | every rejection carries a non-empty message |
| Models.NameCheckedFirst | internal/models/book.go:19-21 | an empty name is reported whatever else is wrong |
| Models.ReleaseAtNowRejected | internal/models/book.go:23-25 | a release equal to the current instant is rejected with the release message |
| Models.NonPositiveIdsRejected | internal/models/book.go:35-41 | a negative author or genre id is rejected |
| Models.IsValidIgnoresIdPosterAndNames | internal/models/book.go:18-43 | id, poster URL, author name and genre name do not affect the verdict |
| Catalog.ParentsExist | internal/store/bookRepository.go:17-19 | the foreign-key condition on a book row holds iff some author row has its author id and some genre row has its genre id |
| Catalog.NoRowWithKeyBelowOne | internal/store/bookRepository.go:17-23 | no row has a key below 1, so the zero ids of an empty book never satisfy the foreign keys |
| Seqs.FindByKey | internal/store/authorRepository.go:18 | a row is found iff some row has the key; the found row is stored and has that key |
| Seqs.FindKeyOfRow | internal/store/bookRepository.go:34 | in a key-ordered table, looking up a row's key returns that row |
| Seqs.NextKey | internal/store/bookRepository.go:24 | the id of an insert is at least 1 and above every stored id |
| Seqs.AppendNextKey | internal/store/bookRepository.go:17-26 | appending a row under the next id keeps the table key-ordered |
| Seqs.Offset | internal/store/bookRepository.go:71 | the offset `(page - 1) * perPage` is never negative and is 0 on page 1 |
| Seqs.Page | internal/store/bookRepository.go:73-74 | `LIMIT offset, limit` keeps `max(0, min(limit, n - offset))` rows, those at positions `offset + k` |
| Seqs.PageExtend | internal/store/bookRepository.go:81-88 | appending a row to the scanned rows adds it to the page iff its position lies in the page's window |
| Seqs.PagesDisjoint | internal/store/bookRepository.go:71-74 | two different pages, each at the offset `Offset(perPage, page)` the paged reads use, of a duplicate-free listing share no row |
| Seqs.AscendingKeyCount | internal/store/bookRepository.go:64 | a key-ordered table has as many distinct ids as rows |
| Seqs.Filter | internal/store/bookRepository.go:56 | the kept rows are stored rows that satisfy the condition, and every such row is kept |
| Seqs.FilterKeyed | internal/store/bookRepository.go:56 | deleting rows keeps a table key-ordered |
| Text.Like | internal/store/bookRepository.go:143 | `s LIKE '%v%'`: an exact occurrence of the term is a match, and a match needs a term no longer than the text |
| Text.LikeIgnoresAsciiCase | internal/store/bookRepository.go:143 | folding the term or the text to ASCII lower case does not change the verdict of `LIKE`, and keeps the term free of wildcards |
| Text.LikeEmpty | internal/store/bookRepository.go:137 | `LIKE '%%'` matches every string |
| Text.WrappedPatternMatches | internal/store/bookRepository.go:143 | a first name equal to `'%' + v + '%'` already matches `LIKE '%v%'`, so the last disjunct adds nothing |
| Text.TextLe | internal/store/authorRepository.go:93 | under the BINARY collation a name sorts no later than any name it is a prefix of, and a proper extension of a name sorts after it |
| Text.TextLeTotal | internal/store/authorRepository.go:93 | the BINARY collation orders any two names |
| Text.TextLeTransitive | internal/store/authorRepository.go:93 | the BINARY collation is transitive |
| BookStore.View | internal/store/bookRepository.go:34-35 | a joined result row carries the stored columns, the genre's name and the engine's author-name value |
| BookStore.Join | internal/store/bookRepository.go:34 | the inner join yields a row iff the book's author and genre exist, with the stored columns and id |
| BookStore.ListHit | internal/store/bookRepository.go:95 | one table row contributes exactly its joined row when it passes the `WHERE` filter |
| BookStore.Listing | internal/store/bookRepository.go:73 | the listing before `LIMIT` has no more rows than the table |
| BookStore.ListingMembership | internal/store/bookRepository.go:73 | the listing holds exactly the joined rows of the table that pass the filter: every listed book comes from such a row, and every such row is listed |
| BookStore.ListingDescending | internal/store/bookRepository.go:73 | a listing of a key-ordered table is in strictly descending id order |
| BookStore.ListingIdsAbove | internal/store/bookRepository.go:73 | a lower bound on the ids of the rows a listing is built from also bounds every listed id |
| BookStore.ListingDistinct | internal/store/bookRepository.go:73 | a listing holds no book twice |
| BookStore.ListingCountsEveryRow | internal/store/bookRepository.go:73 | when every row joins and passes the filter, every row is listed |
| BookStore.ListingOfUnselectedIsEmpty | internal/store/bookRepository.go:95 | rows the filter rejects contribute nothing |
| BookStore.ListingSplit | internal/store/bookRepository.go:73 | the higher-id part of a table is listed before the lower-id part |
| BookStore.SearchCondition | internal/store/bookRepository.go:143 | the search `WHERE` holds iff the term occurs in the book name, the genre name or the author first name; the literal comparison with `'%' + v + '%'` adds no match |
| BookStore.SearchHit | internal/store/bookRepository.go:143 | one table row contributes its joined row iff the term occurs in its book name, genre name or author first name |
| BookStore.Found | internal/store/bookRepository.go:136-160 | the search result holds exactly the joined rows whose book name, genre name or author first name contains the term; the last name is not consulted |
| BookStore.FoundAppend | internal/store/bookRepository.go:150-159 | scanning one more row extends the search result by exactly that row's hit |
| BookStore.EmptySearchFindsEveryJoinedRow | internal/store/bookRepository.go:137-143 | the empty term finds every book whose author and genre exist |
| BookStore.UpdateRows | internal/store/bookRepository.go:46 | the update keeps the row count and every row's id |
| BookStore.UpdateKeepsTableKeyed | internal/store/bookRepository.go:46 | the update keeps the table key-ordered |
| BookStore.UpdateHit | internal/store/bookRepository.go:46 | updating a stored book makes its id read back as the new columns |
| BookStore.UpdateEffect | internal/store/bookRepository.go:44-53 | the row with the book's id reads back as the new columns and every other row is unchanged; an id that is not stored changes nothing |
| BookStore.DeleteRows | internal/store/bookRepository.go:56 | exactly the rows not matching both id and author id remain |
| BookStore.DeleteHit | internal/store/bookRepository.go:56 | deleting a stored book by its own id and owner removes one row, after which the id is found no more |
| BookStore.DeleteEffect | internal/store/bookRepository.go:55-60 | a matching delete removes one row and the id is found no more; otherwise the table is unchanged |
| BookStore.BookRepository.Add | internal/store/bookRepository.go:16-28 | succeeds iff the author and genre exist; on success it appends the row under a fresh id of at least 1, which reads back; on failure it reports the foreign-key violation and changes nothing |
| BookStore.BookRepository.GetById | internal/store/bookRepository.go:30-42 | returns the stored row with its stored columns, its genre name taken from the genre row it joins and its author name the engine's value for the joined author's last and first names; `NoRows` when there is no such row or it does not join |
| BookStore.BookRepository.Update | internal/store/bookRepository.go:44-53 | fails iff the id is stored and the new author or genre is missing, changing nothing; otherwise the rows become `UpdateRows` of the old rows |
| BookStore.BookRepository.Delete | internal/store/bookRepository.go:55-60 | never reports an error; the rows become `DeleteRows` of the old rows |
| BookStore.BookRepository.Count | internal/store/bookRepository.go:62-68 | the number of distinct stored ids |
| BookStore.BookRepository.List | internal/store/bookRepository.go:70-90 | the loop's result equals the page at offset `(page - 1) * perPage` of the id-descending listing |
| BookStore.BookRepository.GetPerPage | internal/store/bookRepository.go:70-90 | one page of all joined books, highest id first |
| BookStore.BookRepository.GetByGenre | internal/store/bookRepository.go:92-112 | one page of the joined books of one genre, highest id first |
| BookStore.BookRepository.GetByAuthor | internal/store/bookRepository.go:114-134 | one page of the joined books of one author, highest id first |
| BookStore.BookRepository.Search | internal/store/bookRepository.go:136-160 | the loop's result equals `Found` on the stored rows |
| AuthorStore.OverwriteAll | internal/store/authorRepository.go:44 | the unscoped update keeps the row count and every row's id |
| AuthorStore.OverwriteAllEffect | internal/store/authorRepository.go:42-50 | every author takes the new names, birthday and bio; the table stays key-ordered; reading the update's id gives back the update itself, or nothing when that id is not stored |
| AuthorStore.DeleteAuthorRows | internal/store/authorRepository.go:53 | exactly the rows with another id remain |
| AuthorStore.DeleteAuthorHit | internal/store/authorRepository.go:53 | deleting a stored author removes one row, after which its id is found no more |
| AuthorStore.DeleteAuthorEffect | internal/store/authorRepository.go:52-58 | deleting a stored id removes one row and the id is found no more; an absent id changes nothing |
| AuthorStore.SearchByNameMembership | internal/store/authorRepository.go:68-88 | an author is in the result iff it is stored and its last or first name contains the term |
| AuthorStore.InsertByLastName | internal/store/authorRepository.go:93 | inserting into a last-name-ordered list keeps it ordered and adds exactly that author |
| AuthorStore.SortByLastName | internal/store/authorRepository.go:93 | the result is ordered by last name and is a permutation of the table |
| AuthorStore.AuthorPageFromTable | internal/store/authorRepository.go:90-110 | a page holds at most `perPage` stored authors, in last-name order |
| AuthorStore.AuthorRepository.Get | internal/store/authorRepository.go:16-24 | returns the author iff some row has the id; otherwise `NoRows` |
| AuthorStore.AuthorRepository.Add | internal/store/authorRepository.go:26-40 | appends the author under a fresh id of at least 1, which reads back as the author |
| AuthorStore.AuthorRepository.Update | internal/store/authorRepository.go:42-50 | never reports an error; the rows become `OverwriteAll` of the old rows |
| AuthorStore.AuthorRepository.Delete | internal/store/authorRepository.go:52-58 | never reports an error; the rows become `DeleteAuthorRows` of the old rows |
| AuthorStore.AuthorRepository.Count | internal/store/authorRepository.go:60-66 | the number of distinct stored ids |
| AuthorStore.AuthorRepository.SearchByName | internal/store/authorRepository.go:68-88 | the loop's result equals the table filtered by the name match, in table order |
| AuthorStore.AuthorRepository.GetPerPage | internal/store/authorRepository.go:90-110 | the loop's result equals the page at offset `(page - 1) * perPage` of the authors ordered by last name |
| Fixture.FixtureRows | internal/db/testing.go:68-83 | books 1-10 belong to author 1 and genre 1; books 11-16 to author 2 and genre 2 |
| Fixture.FixtureKeyed | internal/db/testing.go:63-84 | the test tables are key-ordered |
| Fixture.FixtureParents | internal/db/testing.go:64-67 | authors 1 and 2 and genres 1 and 2 exist |
| Fixture.FixtureParentsExist | internal/db/testing.go:63-84 | every test book satisfies its foreign keys |
| Fixture.FixtureBookPages | internal/store/bookRepository_test.go:249-288 | pages 1, 2 and 3 of 10 books hold 10, 6 and 0 books |
| Fixture.ListsLastSix | internal/store/bookRepository_test.go:290-364 | a filter passing exactly books 11-16 lists six books |
| Fixture.FixtureGenreAndAuthorPages | internal/store/bookRepository_test.go:290-364 | for genre 2 and for author 2, page 1 holds 6 books and page 2 none |
| Fixture.FixtureAuthorPages | internal/store/authorRepository_test.go:151-170 | author page 1 of 10 holds both authors and page 2 none |
| Fixture.FixtureNamesShort | internal/db/testing.go:63-84 | no searched name in the test data is longer than 12 characters |
| Fixture.FirstBookFound | internal/store/bookRepository_test.go:366-416 | a term matching book 1's name, genre or author first name gives a non-empty search |
| Fixture.FixtureSearchEmpty | internal/store/bookRepository_test.go:372-376 | the empty term finds books |
| Fixture.FixtureSearchBook | internal/store/bookRepository_test.go:377-381 | "book" finds books |
| Fixture.FixtureSearchHarry | internal/store/bookRepository_test.go:387-391 | "Harry", an author's first name, finds books |
| Fixture.FixtureSearchLowerHarry | internal/store/bookRepository.go:143 | "harry" in lower case finds book 1, whose author's first name is Harry, since `LIKE` ignores ASCII case |
| Fixture.FixtureSearchMisses | internal/store/bookRepository_test.go:382-386 | "not found book" finds nothing |
| Fixture.FixtureAuthorSearches | internal/store/authorRepository_test.go:129-149 | "arry" finds an author; "invalid value for search" finds none |
| Fixture.FixtureParentMissing | internal/store/bookRepository_test.go:30-60 | no author or genre above id 2 exists, so authors 200 and 256 and genres 900 and 234 are missing |
| Fixture.FixtureDeleteMisses | internal/store/bookRepository_test.go:192-209 | deleting book 99, or book 1 with another owner, keeps every book |

## Left out

- The connection setup, the schema and fixture loader, `main.go` and the store facade are not part of this model. The fixture rows themselves are modelled.
- Driver and engine errors are not modelled: failed scans, closed connections and a failing `LastInsertId`. Neither is any error other than a foreign-key violation or a missing row.
- AuthorStore.AuthorRepository.Count: the source's swallowing of a query error, which returns `(0, nil)`, is not modelled, because driver errors are out of scope. The model always returns the row count.
- BookStore.BookRepository.Search: requires a term without `%` and `_`. LIKE wildcards inside the term are not modelled. The search test for "test_genre 2" contains `_` and lies outside the model.
- AuthorStore.AuthorRepository.SearchByName: requires a term without `%` and `_`, for the same reason.
- Text.Like: case folding covers ASCII letters only, as SQLite's LIKE does by default. No Unicode case folding is modelled.
- BookStore.View: the author-name column (`a.last_name + ' ' + a.first_name`, which SQLite evaluates as numeric addition) is an uninterpreted function of the two names, held by the database.
- Dates are integers on one time line. Time zones and the text form in which SQLite stores them are not modelled. `IsValid` takes the current instant as a parameter instead of reading the clock.
- Ids are unbounded integers. The 64-bit limit of SQLite rowids is not modelled.
- Coast and page counts are Go `uint` values stored as 64-bit SQLite integers. The model holds them as unbounded `nat`, so neither the Go width nor values above the largest signed 64-bit integer are modelled.
- Seqs.Offset: the offset `(page - 1) * perPage` is a Go `int` product, which wraps around on overflow. The model computes it over unbounded integers.
- Seqs.NextKey: a new id is one past the largest stored id. This matches SQLite's rowid choice without AUTOINCREMENT while the largest id is below the 64-bit limit. The random reuse of ids past that limit is not modelled.
- Paging requires `page >= 1` and `perPage >= 0`. A negative `LIMIT` or offset, which SQLite treats as "no limit" or zero, is not modelled.
- Rows from a query without `ORDER BY` (search, search by name) are returned in table order. Ties in `ORDER BY last_name` keep table order. SQLite guarantees neither.
- The cascade of an author delete to that author's books is not modelled. It is declared in migration files that are not part of this model. In the model those books stay in the table, where the inner joins hide them.
- Concurrent use of the database is not modelled.
