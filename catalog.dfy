/**
 * Reading the books table: `index`, the listing narrowed by optional
 * equality filters on author, genre and publication year, and `show`, the
 * lookup of one book by id.
 */
module Catalog {

  import opened Wrappers
  import opened Models

  /**
   * One optional query-string filter. `Any` means the parameter is not in
   * the request; `Equals(None)` is a parameter sent empty, which the query
   * builder turns into an `is null` condition.
   */
  datatype Filter<T> = Any | Equals(value: T)

  datatype Query = Query(
    author: Filter<Option<string>>,
    genre: Filter<Option<string>>,
    publicationYear: Filter<Option<int>>)

  /** The query with no filter at all. */
  const EVERYTHING := Query(Any, Any, Any)

  predicate Admits<T(==)>(f: Filter<T>, v: T)
  {
    f.Any? || f.value == v
  }

  /** A book passes every filter the query carries. */
  predicate Matches(b: Book, q: Query)
  {
    Admits(q.author, b.author) && Admits(q.genre, b.genre) && Admits(q.publicationYear, b.publicationYear)
  }

  /** The rows `index` returns, keyed by id. */
  function Index(books: map<int, Book>, q: Query): (r: map<int, Book>)
    ensures forall id :: id in r <==> id in books && Matches(books[id], q)
    ensures forall id :: id in r ==> r[id] == books[id]
  {
    map id | id in books && Matches(books[id], q) :: books[id]
  }

  /** `show`: the book with that id, or not found. */
  function Show(books: map<int, Book>, id: int): (r: Response)
    ensures r.Ok? || r.NotFound?
    ensures r.Ok? <==> id in books
    ensures r.Ok? ==> r.book == books[id]
  {
    if id in books then Ok(books[id]) else NotFound
  }

  /** With no filter the whole catalog comes back. */
  lemma IndexEverything(books: map<int, Book>)
    ensures Index(books, EVERYTHING) == books
  {
  }

  /** The filters combine by AND: the listing is the intersection of the three single-filter listings. */
  lemma IndexIsIntersection(books: map<int, Book>, q: Query)
    ensures Index(books, q).Keys
         == Index(books, Query(q.author, Any, Any)).Keys
          * Index(books, Query(Any, q.genre, Any)).Keys
          * Index(books, Query(Any, Any, q.publicationYear)).Keys
  {
  }

  /** Adding a filter can only narrow the listing. */
  lemma IndexNarrows(books: map<int, Book>, q: Query, q': Query)
    requires q'.author.Any? || q'.author == q.author
    requires q'.genre.Any? || q'.genre == q.genre
    requires q'.publicationYear.Any? || q'.publicationYear == q.publicationYear
    ensures Index(books, q).Keys <= Index(books, q').Keys
  {
  }
}
