/**
 * The validation rules `store` and `update` apply to a book request before
 * touching the books table. Every field of the request is one `Param`:
 * missing from the request, present but null (an empty form field arrives as
 * null), present with a value of the wrong kind (or a file that fails the
 * mimes/size rule), or present with a usable value.
 */
module Validation {

  import opened Wrappers
  import opened Models

  /** The earliest publication year either action accepts. */
  const MIN_YEAR := 1900

  /** The characters PHP's `trim` strips by default. */
  const TRIMMED: set<char> := {' ', '\t', '\n', '\r', '\0', '\U{000B}'}

  datatype Param<+T> = Absent | Null | Malformed | Present(value: T)

  /**
   * The multipart form of `store` and `update`. For `image`, `Present(name)`
   * is an upload of an accepted type and size, and `name` is the file name
   * it gets stored under (the source derives it from the clock).
   */
  datatype BookRequest = BookRequest(
    title: Param<string>,
    author: Param<string>,
    publicationYear: Param<int>,
    genre: Param<string>,
    image: Param<string>)

  /** What `$request->field` yields: the value, or null when it is not a usable value. */
  function Carried<T>(p: Param<T>): (r: Option<T>)
    ensures r.Some? <==> p.Present?
    ensures r.Some? ==> r.value == p.value
  {
    match p
    case Present(v) => Some(v)
    case _ => None
  }

  /** A string that `required` treats as empty: nothing left after trimming. */
  predicate Blank(s: string)
  {
    forall i :: 0 <= i < |s| ==> s[i] in TRIMMED
  }

  /** The rule `required|string`. */
  predicate RequiredText(p: Param<string>)
  {
    p.Present? && !Blank(p.value)
  }

  /** The rule `required|integer|min:1900|max:<current year>`. */
  predicate YearInRange(p: Param<int>, currentYear: int)
  {
    p.Present? && MIN_YEAR <= p.value <= currentYear
  }

  /**
   * The fields whose rules fail under `store`, where every field is
   * `required`: a text field must be a non-blank string, the year an integer
   * in range, and the image an accepted upload.
   */
  function StoreErrors(req: BookRequest, currentYear: int): (r: set<Field>)
    ensures Title in r <==> !req.title.Present? || Blank(req.title.value)
    ensures Author in r <==> !req.author.Present? || Blank(req.author.value)
    ensures Genre in r <==> !req.genre.Present? || Blank(req.genre.value)
    ensures PublicationYear in r <==>
      !req.publicationYear.Present? || req.publicationYear.value < MIN_YEAR || req.publicationYear.value > currentYear
    ensures Image in r <==> !req.image.Present?
  {
    (if RequiredText(req.title) then {} else {Title})
    + (if RequiredText(req.author) then {} else {Author})
    + (if YearInRange(req.publicationYear, currentYear) then {} else {PublicationYear})
    + (if RequiredText(req.genre) then {} else {Genre})
    + (if req.image.Present? then {} else {Image})
  }

  /**
   * The fields whose rules fail under `update`: each text field and the year
   * are checked only when the request carries them (`sometimes`), and then
   * as strictly as under `store` (a null is rejected); the image may be left
   * out or null (`nullable`), and only an unacceptable file is rejected.
   */
  function UpdateErrors(req: BookRequest, currentYear: int): (r: set<Field>)
    ensures Title in r <==> !req.title.Absent? && (!req.title.Present? || Blank(req.title.value))
    ensures Author in r <==> !req.author.Absent? && (!req.author.Present? || Blank(req.author.value))
    ensures Genre in r <==> !req.genre.Absent? && (!req.genre.Present? || Blank(req.genre.value))
    ensures PublicationYear in r <==>
      && !req.publicationYear.Absent?
      && (!req.publicationYear.Present? || req.publicationYear.value < MIN_YEAR || req.publicationYear.value > currentYear)
    ensures Image in r <==> req.image.Malformed?
  {
    (if req.title.Absent? || RequiredText(req.title) then {} else {Title})
    + (if req.author.Absent? || RequiredText(req.author) then {} else {Author})
    + (if req.publicationYear.Absent? || YearInRange(req.publicationYear, currentYear) then {} else {PublicationYear})
    + (if req.genre.Absent? || RequiredText(req.genre) then {} else {Genre})
    + (if req.image.Malformed? then {Image} else {})
  }

  /** `store` passes validation exactly when every field is present and usable and the year is in range. */
  lemma StoreAcceptsExactly(req: BookRequest, currentYear: int)
    ensures StoreErrors(req, currentYear) == {} <==>
      && RequiredText(req.title) && RequiredText(req.author) && RequiredText(req.genre)
      && req.publicationYear.Present? && MIN_YEAR <= req.publicationYear.value <= currentYear
      && req.image.Present?
  {
  }

  /**
   * The year boundaries: with every other field acceptable, 1899 and the
   * year after the current one are rejected on the year alone, and the
   * current year is accepted.
   */
  lemma YearBoundaries(req: BookRequest, currentYear: int)
    requires RequiredText(req.title) && RequiredText(req.author) && RequiredText(req.genre)
    requires req.image.Present?
    requires currentYear >= MIN_YEAR
    ensures StoreErrors(req.(publicationYear := Present(MIN_YEAR - 1)), currentYear) == {PublicationYear}
    ensures StoreErrors(req.(publicationYear := Present(currentYear)), currentYear) == {}
    ensures StoreErrors(req.(publicationYear := Present(currentYear + 1)), currentYear) == {PublicationYear}
    ensures UpdateErrors(req.(publicationYear := Present(MIN_YEAR - 1)), currentYear) == {PublicationYear}
    ensures UpdateErrors(req.(publicationYear := Present(currentYear + 1)), currentYear) == {PublicationYear}
  {
  }

  /** `update` is the laxer of the two: every field `store` accepts, `update` accepts too. */
  lemma UpdateLaxerThanStore(req: BookRequest, currentYear: int)
    ensures UpdateErrors(req, currentYear) <= StoreErrors(req, currentYear)
  {
  }

  /** When a request carries every field, both actions judge it alike. */
  lemma CompleteRequestJudgedAlike(req: BookRequest, currentYear: int)
    requires req.title.Present? && req.author.Present? && req.publicationYear.Present?
    requires req.genre.Present? && req.image.Present?
    ensures UpdateErrors(req, currentYear) == StoreErrors(req, currentYear)
  {
  }

  /** A request that carries no field at all passes `update`'s validation. */
  lemma EmptyRequestPassesUpdate(currentYear: int)
    ensures UpdateErrors(BookRequest(Absent, Absent, Absent, Absent, Absent), currentYear) == {}
    ensures StoreErrors(BookRequest(Absent, Absent, Absent, Absent, Absent), currentYear)
            == {Title, Author, PublicationYear, Genre, Image}
  {
  }

  /**
   * A null image is no upload: `update` accepts it exactly as it accepts a
   * request without the field, while `store` rejects it.
   */
  lemma NullImage(req: BookRequest, currentYear: int)
    ensures UpdateErrors(req.(image := Null), currentYear) == UpdateErrors(req.(image := Absent), currentYear)
    ensures Image !in UpdateErrors(req.(image := Null), currentYear)
    ensures Image in StoreErrors(req.(image := Null), currentYear)
  {
  }

  /**
   * After `update`'s validation, `$request->field` is null exactly for the
   * fields the request omits, and a usable value for every other one: a
   * valid update nulls exactly the omitted columns.
   */
  lemma ValidUpdateCarries(req: BookRequest, currentYear: int)
    requires UpdateErrors(req, currentYear) == {}
    ensures Carried(req.title).None? <==> req.title.Absent?
    ensures Carried(req.author).None? <==> req.author.Absent?
    ensures Carried(req.genre).None? <==> req.genre.Absent?
    ensures Carried(req.publicationYear).None? <==> req.publicationYear.Absent?
    ensures Carried(req.title).Some? ==> !Blank(Carried(req.title).value)
    ensures Carried(req.author).Some? ==> !Blank(Carried(req.author).value)
    ensures Carried(req.genre).Some? ==> !Blank(Carried(req.genre).value)
    ensures Carried(req.publicationYear).Some? ==>
      MIN_YEAR <= Carried(req.publicationYear).value <= currentYear
  {
    assert Title !in UpdateErrors(req, currentYear);
    assert Author !in UpdateErrors(req, currentYear);
    assert Genre !in UpdateErrors(req, currentYear);
    assert PublicationYear !in UpdateErrors(req, currentYear);
  }
}
