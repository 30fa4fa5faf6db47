/** The catalogue's records (models.Book, models.Author) and the book validator.
    Dates are instants on one integer time line; `coast` and `pages` are
    unsigned in the source, hence `nat`. */
module Models {
  import opened Common

  datatype Book = Book(
    id: int,
    name: string,
    release: int,
    coast: nat,
    pages: nat,
    posterUrl: string,
    authorId: int,
    authorName: string,
    genreId: int,
    genreName: string)

  datatype Author = Author(id: int, lastName: string, firstName: string, birthday: int, bio: string)

  const NameRequired := "Book name is require field"
  const ReleaseInPast := "Release date must be in past"
  const CoastRequired := "Coast is require field"
  const PagesRequired := "Pages is require field"
  const AuthorRequired := "author_id is require field"
  const GenreRequired := "genre_id is require field"

  /** Everything a book must satisfy to be accepted at instant `now`. */
  predicate Acceptable(b: Book, now: int) {
    && b.name != ""
    && b.release < now
    && b.coast != 0
    && b.pages != 0
    && b.authorId > 0
    && b.genreId > 0
  }

  /** `Book.IsValid` with the clock reading `now` as an input: `(true, "")` for an
      acceptable book, otherwise `false` and the message of the first rule broken. */
  function IsValid(b: Book, now: int): (r: (bool, string))
    ensures r.0 <==> Acceptable(b, now)
    ensures r.0 <==> r.1 == ""
  {
    if b.name == "" then (false, NameRequired)
    else if !(b.release < now) then (false, ReleaseInPast)
    else if b.coast == 0 then (false, CoastRequired)
    else if b.pages == 0 then (false, PagesRequired)
    else if b.authorId <= 0 then (false, AuthorRequired)
    else if b.genreId <= 0 then (false, GenreRequired)
    else (true, "")
  }

  /** One validation rule: whether it holds and what is reported when it does not. */
  datatype Rule = Rule(holds: bool, message: string)

  /** The rules in the order the validator checks them. */
  function Rules(b: Book, now: int): seq<Rule> {
    [ Rule(b.name != "", NameRequired),
      Rule(b.release < now, ReleaseInPast),
      Rule(b.coast != 0, CoastRequired),
      Rule(b.pages != 0, PagesRequired),
      Rule(b.authorId > 0, AuthorRequired),
      Rule(b.genreId > 0, GenreRequired) ]
  }

  /** The message of the first rule in `rs` that does not hold, if any. */
  function FirstBroken(rs: seq<Rule>): (m: Option<string>)
    ensures m.None? <==> forall i :: 0 <= i < |rs| ==> rs[i].holds
  {
    if rs == [] then None
    else if !rs[0].holds then Some(rs[0].message)
    else FirstBroken(rs[1..])
  }

  /** The validator reports exactly the first broken rule of the ordered list. */
  lemma IsValidReportsFirstBrokenRule(b: Book, now: int)
    ensures IsValid(b, now) == match FirstBroken(Rules(b, now))
                               case None => (true, "")
                               case Some(m) => (false, m)
  {
    var r0 := Rules(b, now);
    var r1, r2, r3, r4, r5 := r0[1..], r0[2..], r0[3..], r0[4..], r0[5..];
    assert r1[1..] == r2 && r2[1..] == r3 && r3[1..] == r4 && r4[1..] == r5 && r5[1..] == [];
    assert FirstBroken(r5) == if b.genreId > 0 then None else Some(GenreRequired);
    assert FirstBroken(r4) == if b.authorId > 0 then FirstBroken(r5) else Some(AuthorRequired);
    assert FirstBroken(r3) == if b.pages != 0 then FirstBroken(r4) else Some(PagesRequired);
    assert FirstBroken(r2) == if b.coast != 0 then FirstBroken(r3) else Some(CoastRequired);
    assert FirstBroken(r1) == if b.release < now then FirstBroken(r2) else Some(ReleaseInPast);
  }

  /** Every rule reports a non-empty message, so a rejection always explains itself. */
  lemma RejectionHasMessage(b: Book, now: int)
    requires !IsValid(b, now).0
    ensures IsValid(b, now).1 != ""
  {
  }

  /** An empty name is reported ahead of every later rule, e.g. a zero coast. */
  lemma NameCheckedFirst(b: Book, now: int)
    requires b.name == ""
    ensures IsValid(b, now) == (false, NameRequired)
  {
  }

  /** A release at exactly `now` is not in the past and is rejected. */
  lemma ReleaseAtNowRejected(b: Book, now: int)
    requires b.name != "" && b.release == now
    ensures IsValid(b, now) == (false, ReleaseInPast)
  {
  }

  /** A negative author or genre id is rejected, not only zero. */
  lemma NonPositiveIdsRejected(b: Book, now: int)
    requires b.authorId < 0 || b.genreId < 0
    ensures !IsValid(b, now).0
  {
  }

  /** The id, the poster and the two denormalised names never affect validation. */
  lemma IsValidIgnoresIdPosterAndNames(b: Book, now: int, id: int, poster: string, authorName: string, genreName: string)
    ensures IsValid(b.(id := id, posterUrl := poster, authorName := authorName, genreName := genreName), now)
         == IsValid(b, now)
  {
  }
}
