/** The usual optional value, standing for a nullable column or parameter. */
module Wrappers {

  datatype Option<+T> = None | Some(value: T)
}

/**
 * The two tables the book controller works on, and the outcomes it answers
 * with. A `Book` row carries the columns listed as fillable on the Book
 * model; a `BorrowRecord` row carries the columns the controller writes into
 * the borrow_records table.
 */
module Models {

  import opened Wrappers

  /**
   * A row of the books table. The bibliographic columns are nullable here
   * because `update` copies absent request fields into them as null.
   * `image` is the stored file name of the cover picture.
   */
  datatype Book = Book(
    title: Option<string>,
    author: Option<string>,
    publicationYear: Option<int>,
    genre: Option<string>,
    image: string,
    isBorrowed: bool)

  /**
   * A row of the borrow_records table; `returnedAt == None` means the loan
   * is still open. Timestamps are plain integers supplied by the caller.
   */
  datatype BorrowRecord = BorrowRecord(
    bookId: int,
    userId: int,
    borrowedAt: int,
    returnedAt: Option<int>)

  /** The request fields that validation can reject. */
  datatype Field = Title | Author | PublicationYear | Genre | Image

  /**
   * What a controller action answers, without the JSON envelope:
   * `Ok` is a 200 carrying a book, `Created` the 201 of `store`, `Deleted`
   * the 200 of `destroy`, `NotFound` a 404, `AlreadyBorrowed` and
   * `NotBorrowed` the two 400s, and `Invalid` the 422 with the fields whose
   * rules failed.
   */
  datatype Response =
    | Ok(book: Book)
    | Created(id: int, book: Book)
    | Deleted
    | NotFound
    | AlreadyBorrowed
    | NotBorrowed
    | Invalid(fields: set<Field>)
}
