/** The author repository (AuthorRepository): one SQL statement per operation
    over the `author` table. */
module AuthorStore {
  import opened Common
  import opened Seqs
  import opened Text
  import opened Models
  import opened Catalog

  /** `UPDATE author SET last_name = ?, first_name = ?, birthday = ?, bio = ?`,
      as written: the statement has no `WHERE`, so every row takes `a`'s
      fields and keeps its own id. */
  function OverwriteAll(rows: seq<Author>, a: Author): (r: seq<Author>)
    ensures |r| == |rows|
    ensures forall i :: 0 <= i < |r| ==> r[i].id == rows[i].id
  {
    seq(|rows|, i requires 0 <= i < |rows| => a.(id := rows[i].id))
  }

  /** After the unscoped update every author row carries `a`'s last name, first
      name, birthday and bio; ids and the row count stay; and reading back the
      row with `a.id`, when there is one, gives exactly `a`. */
  lemma OverwriteAllEffect(rows: seq<Author>, a: Author)
    requires Keyed(rows, AuthorKey)
    ensures var r := OverwriteAll(rows, a);
      && Keyed(r, AuthorKey)
      && (forall i :: 0 <= i < |r| ==>
            r[i].lastName == a.lastName && r[i].firstName == a.firstName && r[i].birthday == a.birthday && r[i].bio == a.bio)
      && (FindByKey(rows, AuthorKey, a.id).Some? ==> FindByKey(r, AuthorKey, a.id) == Some(a))
      && (FindByKey(rows, AuthorKey, a.id).None? ==> FindByKey(r, AuthorKey, a.id) == None)
  {
    var r := OverwriteAll(rows, a);
    if FindByKey(rows, AuthorKey, a.id).Some? {
      var i :| 0 <= i < |rows| && rows[i].id == a.id;
      FindKeyOfRow(r, AuthorKey, i);
      assert r[i] == a;
    }
  }

  /** The rows `DELETE FROM author WHERE id = ?` keeps. */
  function KeepsAuthor(id: int): Author -> bool {
    (a: Author) => a.id != id
  }

  /** `DELETE FROM author WHERE id = ?`. */
  function DeleteAuthorRows(rows: seq<Author>, id: int): (r: seq<Author>)
    ensures forall i :: 0 <= i < |r| ==> r[i] in rows && r[i].id != id
    ensures forall i :: 0 <= i < |rows| && rows[i].id != id ==> rows[i] in r
  {
    Filter(rows, KeepsAuthor(id))
  }

  /** Deleting the stored author `k` removes that row only: one row fewer, and
      its id is found no more. */
  lemma DeleteAuthorHit(rows: seq<Author>, k: int)
    requires Keyed(rows, AuthorKey) && 0 <= k < |rows|
    ensures var r := DeleteAuthorRows(rows, rows[k].id);
      |r| == |rows| - 1 && FindByKey(r, AuthorKey, rows[k].id) == None
  {
    var p := KeepsAuthor(rows[k].id);
    forall i | 0 <= i < |rows| && i != k ensures p(rows[i]) {
      if i < k { assert rows[i].id < rows[k].id; } else { assert rows[k].id < rows[i].id; }
    }
    FilterDropsOne(rows, p, k);
  }

  /** Deleting a stored author removes exactly that row; deleting an id that
      is not stored changes nothing (and is not an error). */
  lemma DeleteAuthorEffect(rows: seq<Author>, id: int)
    requires Keyed(rows, AuthorKey)
    ensures var r := DeleteAuthorRows(rows, id);
      && Keyed(r, AuthorKey)
      && (FindByKey(rows, AuthorKey, id).Some? ==> |r| == |rows| - 1 && FindByKey(r, AuthorKey, id) == None)
      && (FindByKey(rows, AuthorKey, id).None? ==> r == rows)
  {
    FilterKeyed(rows, KeepsAuthor(id), AuthorKey);
    if FindByKey(rows, AuthorKey, id).Some? {
      var k :| 0 <= k < |rows| && AuthorKey(rows[k]) == id;
      DeleteAuthorHit(rows, k);
    } else {
      assert forall i :: 0 <= i < |rows| ==> KeepsAuthor(id)(rows[i]);
      FilterKeepsAll(rows, KeepsAuthor(id));
    }
  }

  /** `last_name LIKE '%v%' OR first_name LIKE '%v%'`. */
  function NameMatcher(v: string): Author -> bool
    requires NoWildcards(v)
  {
    (a: Author) => Like(a.lastName, v) || Like(a.firstName, v)
  }

  /** The authors a name search for `v` returns: exactly those whose last or
      first name contains `v`, in table order. */
  lemma SearchByNameMembership(rows: seq<Author>, v: string, a: Author)
    requires NoWildcards(v)
    ensures a in Filter(rows, NameMatcher(v)) <==> a in rows && (Like(a.lastName, v) || Like(a.firstName, v))
  {
    if a in rows && (Like(a.lastName, v) || Like(a.firstName, v)) {
      var i :| 0 <= i < |rows| && rows[i] == a;
    }
  }

  /** Rows in `ORDER BY last_name` order (BINARY collation). */
  ghost predicate SortedByLastName(s: seq<Author>) {
    forall i, j :: 0 <= i < j < |s| ==> TextLe(s[i].lastName, s[j].lastName)
  }

  /** A row whose last name is not above any in a sorted list may go in front. */
  lemma PrependByLastName(x: Author, s: seq<Author>)
    requires SortedByLastName(s)
    requires forall j :: 0 <= j < |s| ==> TextLe(x.lastName, s[j].lastName)
    ensures SortedByLastName([x] + s)
  {
    var r := [x] + s;
    forall i, j | 0 <= i < j < |r| ensures TextLe(r[i].lastName, r[j].lastName) {
      assert r[j] == s[j - 1];
      if i > 0 { assert r[i] == s[i - 1]; }
    }
  }

  /** A row not above the head of a sorted list is not above any of its rows. */
  lemma BelowHeadBelowAll(x: Author, s: seq<Author>)
    requires SortedByLastName(s) && s != [] && TextLe(x.lastName, s[0].lastName)
    ensures forall j :: 0 <= j < |s| ==> TextLe(x.lastName, s[j].lastName)
  {
    forall j | 0 <= j < |s| ensures TextLe(x.lastName, s[j].lastName) {
      if j > 0 { TextLeTransitive(x.lastName, s[0].lastName, s[j].lastName); }
    }
  }

  /** A bound on `x` and on every row of `t` bounds every row of a permutation of `t` plus `x`. */
  lemma BoundKeptByInsert(h: Author, x: Author, t: seq<Author>, rest: seq<Author>)
    requires TextLe(h.lastName, x.lastName)
    requires forall j :: 0 <= j < |t| ==> TextLe(h.lastName, t[j].lastName)
    requires multiset(rest) == multiset(t) + multiset{x}
    ensures forall j :: 0 <= j < |rest| ==> TextLe(h.lastName, rest[j].lastName)
  {
    forall j | 0 <= j < |rest| ensures TextLe(h.lastName, rest[j].lastName) {
      assert rest[j] in multiset(rest);
      if rest[j] != x {
        assert rest[j] in multiset(t);
        var m :| 0 <= m < |t| && t[m] == rest[j];
      }
    }
  }

  /** Places `x` in front of the first row whose last name is not below its own. */
  function InsertByLastName(x: Author, s: seq<Author>): (r: seq<Author>)
    requires SortedByLastName(s)
    ensures SortedByLastName(r)
    ensures multiset(r) == multiset(s) + multiset{x}
    ensures |r| == |s| + 1
  {
    if s == [] then [x]
    else if TextLe(x.lastName, s[0].lastName) then
      BelowHeadBelowAll(x, s);
      PrependByLastName(x, s);
      [x] + s
    else
      var rest := InsertByLastName(x, s[1..]);
      TextLeTotal(x.lastName, s[0].lastName);
      assert forall j :: 0 <= j < |s[1..]| ==> TextLe(s[0].lastName, s[1..][j].lastName);
      BoundKeptByInsert(s[0], x, s[1..], rest);
      PrependByLastName(s[0], rest);
      assert s == [s[0]] + s[1..];
      [s[0]] + rest
  }

  /** The table ordered by last name; rows with equal last names keep their
      table (id) order. */
  function SortByLastName(s: seq<Author>): (r: seq<Author>)
    ensures SortedByLastName(r)
    ensures multiset(r) == multiset(s)
    ensures |r| == |s|
  {
    if s == [] then []
    else
      assert s == [s[0]] + s[1..];
      InsertByLastName(s[0], SortByLastName(s[1..]))
  }

  /** Every row of a page of authors is a stored author, and the page is in
      last-name order. */
  lemma AuthorPageFromTable(rows: seq<Author>, perPage: int, page: int)
    requires perPage >= 0 && page >= 1
    ensures var p := Page(SortByLastName(rows), Offset(perPage, page), perPage);
      && SortedByLastName(p)
      && |p| <= perPage
      && forall k :: 0 <= k < |p| ==> p[k] in rows
  {
    var sorted := SortByLastName(rows);
    var p := Page(sorted, Offset(perPage, page), perPage);
    forall k | 0 <= k < |p| ensures p[k] in rows {
      assert p[k] in multiset(sorted);
    }
  }

  class AuthorRepository {
    const db: Database

    constructor (db: Database)
      ensures this.db == db
    {
      this.db := db;
    }

    /** `SELECT id, last_name, first_name, birthday, bio FROM author WHERE id = ?`. */
    function Get(id: int): (r: Result<Author>)
      reads db
      ensures r.Ok? <==> exists i :: 0 <= i < |db.authors| && db.authors[i].id == id
      ensures r.Ok? ==> r.value.id == id && r.value in db.authors
      ensures r.Err? ==> r.error == NoRows
    {
      match FindByKey(db.authors, AuthorKey, id)
      case Some(a) => Ok(a)
      case None => Err(NoRows)
    }

    /** `INSERT INTO author(...)`, then `author.Id = LastInsertId()`. */
    method Add(a: Author) returns (written: Author)
      requires db.Valid()
      modifies db`authors
      ensures db.Valid()
      ensures written == a.(id := written.id)
      ensures written.id >= 1 && written.id !in KeySet(old(db.authors), AuthorKey)
      ensures db.authors == old(db.authors) + [written]
      ensures Get(written.id) == Ok(written)
    {
      var id := NextKey(db.authors, AuthorKey);
      written := a.(id := id);
      AppendNextKey(db.authors, AuthorKey, written);
      db.authors := db.authors + [written];
      FindKeyOfRow(db.authors, AuthorKey, |db.authors| - 1);
    }

    /** The unscoped `UPDATE author SET ...`: every row is overwritten; `a.id` is ignored. */
    method Update(a: Author) returns (outcome: Outcome)
      requires db.Valid()
      modifies db`authors
      ensures db.Valid()
      ensures outcome == Done
      ensures db.authors == OverwriteAll(old(db.authors), a)
    {
      OverwriteAllEffect(db.authors, a);
      db.authors := OverwriteAll(db.authors, a);
      outcome := Done;
    }

    /** `DELETE FROM author WHERE id = ?`; no match is not an error. */
    method Delete(id: int) returns (outcome: Outcome)
      requires db.Valid()
      modifies db`authors
      ensures db.Valid()
      ensures outcome == Done
      ensures db.authors == DeleteAuthorRows(old(db.authors), id)
    {
      DeleteAuthorEffect(db.authors, id);
      db.authors := DeleteAuthorRows(db.authors, id);
      outcome := Done;
    }

    /** `SELECT COUNT(id) FROM author`: the number of distinct stored ids. */
    function Count(): (n: nat)
      reads db
      requires db.Valid()
      ensures n == |KeySet(db.authors, AuthorKey)|
    {
      AscendingKeyCount(db.authors, AuthorKey);
      |db.authors|
    }

    /** `SearchByName(value)`: the authors whose last or first name contains `v`,
        appended in table order; no match gives the empty result. */
    method SearchByName(v: string) returns (authors: seq<Author>)
      requires NoWildcards(v)
      ensures authors == Filter(db.authors, NameMatcher(v))
    {
      var rows := db.authors;
      var p := NameMatcher(v);
      authors := [];
      var i := 0;
      while i < |rows|
        invariant 0 <= i <= |rows|
        invariant authors == Filter(rows[..i], p)
      {
        FilterAppend(rows[..i], rows[i], p);
        assert rows[..i + 1] == rows[..i] + [rows[i]];
        if p(rows[i]) {
          authors := authors + [rows[i]];
        }
        i := i + 1;
      }
      assert rows[..|rows|] == rows;
    }

    /** `GetPerPage(perPage, page)`: `ORDER BY last_name LIMIT offset, perPage`,
        appended row by row from the ordered cursor. */
    method GetPerPage(perPage: int, page: int) returns (authors: seq<Author>)
      requires perPage >= 0 && page >= 1
      ensures authors == Page(SortByLastName(db.authors), Offset(perPage, page), perPage)
    {
      var offset := Offset(perPage, page);
      var rows := SortByLastName(db.authors);
      authors := [];
      var i := 0;
      while i < |rows|
        invariant 0 <= i <= |rows|
        invariant authors == Page(rows[..i], offset, perPage)
      {
        PageExtend(rows[..i], rows[i], offset, perPage);
        assert rows[..i + 1] == rows[..i] + [rows[i]];
        if offset <= i < offset + perPage {
          authors := authors + [rows[i]];
        }
        i := i + 1;
      }
      assert rows[..|rows|] == rows;
    }
  }
}
