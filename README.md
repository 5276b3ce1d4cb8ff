# Library lending core, modelled in Dafny

This project models the book controller of a small library-management web
service (a Laravel back end). The controller owns two tables:

- the **books** table: title, author, publication year, genre, cover image
  file name and an `is_borrowed` flag;
- the **borrow_records** table (the ledger): book id, user id, borrow time and
  a nullable return time. A record whose return time is null is an *open*
  loan.

The actions modelled are `store` (validate and insert a book), `index` (list
books, filtered by author, genre and publication year), `show`, `update`
(validate, then overwrite a row), `destroy`, `borrow` and `return`. The
property at the centre is the **lending invariant**: a book is flagged
borrowed exactly when the ledger holds one open record for it, and no book
ever has more than one open record. Every action is proved to keep it.

Layout, one module per file:

| file | module | contents |
|---|---|---|
| models.dfy | `Wrappers`, `Models` | `Option`; the `Book` and `BorrowRecord` rows; the `Response` outcomes (200/201/404/400/422 without the JSON envelope) |
| validation.dfy | `Validation` | the request (`Param`: absent, null, malformed, present) and the rules of `store` and `update` |
| ledger.dfy | `Ledger` | open-record counting, the open-record lookup of `return`, closing a record |
| catalog.dfy | `Catalog` | `index` as an AND of optional equality filters, and `show` |
| library.dfy | `Library` | both tables as one value, each writing action as a pure transition, the invariant and the lending lemmas |
| controller.dfy | `Controller` | the class `BookController`, whose methods update the tables in place and are proved equal to the transitions |

The caller's user id (`Auth::id()`), the clock (`now()`) and the current
year are parameters. Timestamps are integers.

Three points where the code does less than one might expect, and the model
does what the code does:

- `update` does not keep omitted fields. Its comments say it validates the
  title "if it's provided" (BookController.php:213-216) and updates it "if
  provided" (:255-258), but the code writes `$request->title`, `->author`,
  `->publication_year` and `->genre` whatever the request carries, so an
  omitted field becomes null. The model does the same
  (`Validation.ValidUpdateCarries`, `Library.EmptyUpdateClearsFields`), and
  the bibliographic columns are therefore nullable in `Book`.
- `borrow` and `return` run without a transaction or lock, and `return`
  clears the flag before it looks up the open record. The model runs each
  action as one step but keeps that order: with no open record, `return`
  answers not found after the flag is already cleared
  (`Library.ReturnWithoutOpenRecord`). The invariant rules this case out.
- `destroy` does not check whether the book is borrowed, and neither does
  the model (`Library.DestroyIgnoresLoan`).

Assumptions about things the source relies on but does not show:

- Ids come from an auto-increment counter (`nextId`) and are never reused. A
  deleted borrowed book leaves its open record behind, and this assumption
  keeps that record from attaching to a later book.
- `borrow_records.book_id` has no foreign key that acts when a book is
  deleted. A cascading key would remove the book's records with it, and a
  restricting key would make `destroy` fail for any book that has a record;
  the model does neither (`Library.Destroy`, `Library.DestroyIgnoresLoan`).
- A new book starts with `is_borrowed` false, the column default.
- The open-record lookup returns the earliest record in insertion order.
- An empty form field reaches the controller as null (the request
  middleware converts empty strings), so it is the `Null` request value.

## Model

| member | source | states |
|---|---|---|
| `Validation.StoreErrors` | Backend/library-management-Backend/app/Http/Controllers/BookController.php:22-28 | `store`'s rules field by field: title, author and genre fail unless present and not blank after trimming (`required|string`); the year fails unless present and in [1900, current year] (`required|integer|min:1900|max`); the image fails unless an acceptable file is uploaded (`required|mimes|max`) |
| `Validation.UpdateErrors` | Backend/library-management-Backend/app/Http/Controllers/BookController.php:212-218 | `update`'s rules field by field: a text field or the year fails only when the request carries it and it is null, the wrong type, blank or out of range (`sometimes|required`); the image fails only when it is an unacceptable file, so an absent or null image passes (`nullable`) |
| `Validation.NullImage` | Backend/library-management-Backend/app/Http/Controllers/BookController.php:217 | a null image passes `update` exactly as an absent one does, and fails `store` |
| `Validation.ValidUpdateCarries` | Backend/library-management-Backend/app/Http/Controllers/BookController.php:254-258 | after a valid `update`, `$request->field` is null exactly for the omitted fields, and a non-blank string or an in-range year for every other one, so a valid update nulls exactly the omitted columns |
| `Validation.StoreAcceptsExactly` | Backend/library-management-Backend/app/Http/Controllers/BookController.php:22-37 | `store` validation passes if and only if title, author and genre are present and not blank after trimming, the year is present and in [1900, current year], and an acceptable image is uploaded |
| `Validation.YearBoundaries` | Backend/library-management-Backend/app/Http/Controllers/BookController.php:25 | with the other fields valid, 1899 and next year fail on the year alone and the current year passes, under `store`; under `update`, 1899 and next year also fail on the year alone |
| `Validation.UpdateLaxerThanStore` | Backend/library-management-Backend/app/Http/Controllers/BookController.php:212-218 | every field rejected by `update` is also rejected by `store` (`sometimes` and `nullable` only relax the rules) |
| `Validation.CompleteRequestJudgedAlike` | Backend/library-management-Backend/app/Http/Controllers/BookController.php:212-218 | for a request carrying all five fields, `update` and `store` reject the same fields |
| `Validation.EmptyRequestPassesUpdate` | Backend/library-management-Backend/app/Http/Controllers/BookController.php:212-227 | a request with no fields passes `update` validation and fails `store` validation on all five fields |
| `Ledger.FirstOpen` | Backend/library-management-Backend/app/Http/Controllers/BookController.php:159-161 | the lookup returns the position of an open record for the book with no open record for that book before it, or nothing when no record for the book is open |
| `Ledger.FirstOpenFinds` | Backend/library-management-Backend/app/Http/Controllers/BookController.php:159-161 | the lookup (`firstOrFail`) succeeds if and only if the book has at least one open record |
| `Ledger.Close` | Backend/library-management-Backend/app/Http/Controllers/BookController.php:164 | closing sets the return time of exactly that record and leaves its other columns and every other record unchanged |
| `Ledger.AppendCount` | Backend/library-management-Backend/app/Http/Controllers/BookController.php:122-126 | appending a record adds one open loan to its own book if the record is open, and none to any other book |
| `Ledger.CloseCount` | Backend/library-management-Backend/app/Http/Controllers/BookController.php:164 | closing an open record removes exactly one open loan from its book and none from any other |
| `Ledger.NoRecordsForBook` | Backend/library-management-Backend/app/Http/Controllers/BookController.php:46-52 | a book with no records in the ledger, such as a newly inserted one, has no open loan |
| `Catalog.Index` | Backend/library-management-Backend/app/Http/Controllers/BookController.php:68-97 | the listing holds exactly the books that pass every filter supplied, each with its stored data |
| `Catalog.Show` | Backend/library-management-Backend/app/Http/Controllers/BookController.php:180-198 | `show` answers with the stored book if and only if the id exists, and not found otherwise |
| `Catalog.IndexEverything` | Backend/library-management-Backend/app/Http/Controllers/BookController.php:71-89 | with no filter, the listing is the whole catalog |
| `Catalog.IndexIsIntersection` | Backend/library-management-Backend/app/Http/Controllers/BookController.php:73-86 | the filters combine by AND: the listing is the intersection of the three single-filter listings |
| `Catalog.IndexNarrows` | Backend/library-management-Backend/app/Http/Controllers/BookController.php:73-86 | adding a filter can only remove books from the listing |
| `Library.Borrow` | Backend/library-management-Backend/app/Http/Controllers/BookController.php:105-134 | borrow succeeds if and only if the book exists and is not borrowed. A missing book gives not found and a borrowed one gives already borrowed, both with no change. On success only this book's flag is set, exactly one open record for the caller at `now` is appended, and the old records and ids are unchanged |
| `Library.Return` | Backend/library-management-Backend/app/Http/Controllers/BookController.php:142-172 | a missing book gives not found and an unborrowed one gives not borrowed, both with no change. Otherwise the flag is cleared, and return succeeds if and only if the book has an open record, in which case exactly one open record for it is closed at `now` and the record count stays the same |
| `Library.Store` | Backend/library-management-Backend/app/Http/Controllers/BookController.php:19-60 | store creates a book if and only if validation passes. Invalid input gives the failing fields and writes nothing. On success a row with the request's values, not borrowed, is inserted under a fresh id and the ledger is untouched |
| `Library.Update` | Backend/library-management-Backend/app/Http/Controllers/BookController.php:207-268 | validation runs before the lookup, so invalid input on a missing id gives the failing fields, not not found. A valid update on an existing book overwrites the four columns with what the request carries, replaces the image only on upload, keeps the borrow flag and touches no other row |
| `Library.Destroy` | Backend/library-management-Backend/app/Http/Controllers/BookController.php:276-302 | destroy succeeds if and only if the book exists. It removes exactly that row and leaves the other rows and the ledger untouched |
| `Library.BorrowKeepsConsistent` | Backend/library-management-Backend/app/Http/Controllers/BookController.php:105-134 | borrow keeps the lending invariant |
| `Library.ReturnKeepsConsistent` | Backend/library-management-Backend/app/Http/Controllers/BookController.php:142-172 | return keeps the lending invariant |
| `Library.StoreKeepsConsistent` | Backend/library-management-Backend/app/Http/Controllers/BookController.php:46-52 | store keeps the lending invariant, because a new id has no records |
| `Library.UpdateKeepsConsistent` | Backend/library-management-Backend/app/Http/Controllers/BookController.php:254-260 | update keeps the lending invariant, because it never writes the borrow flag |
| `Library.DestroyKeepsConsistent` | Backend/library-management-Backend/app/Http/Controllers/BookController.php:295 | destroy keeps the lending invariant |
| `Library.ConsistentReturnSucceeds` | Backend/library-management-Backend/app/Http/Controllers/BookController.php:156-164 | under the invariant, returning a borrowed book always finds its open record and succeeds |
| `Library.ReturnWithoutOpenRecord` | Backend/library-management-Backend/app/Http/Controllers/BookController.php:156-161 | if a book is flagged borrowed but has no open record, return answers not found yet the flag has already been cleared; such a state violates the invariant |
| `Library.BorrowTwiceFails` | Backend/library-management-Backend/app/Http/Controllers/BookController.php:111-116 | after a successful borrow, a second borrow by anyone fails with already borrowed and changes nothing |
| `Library.ReturnTwiceFails` | Backend/library-management-Backend/app/Http/Controllers/BookController.php:148-153 | after a successful return, a second return fails with not borrowed and changes nothing |
| `Library.BorrowThenReturn` | Backend/library-management-Backend/app/Http/Controllers/BookController.php:105-172 | on a consistent state, borrow then return both succeed. The books table is restored, and the ledger gains exactly one closed record for the borrower, with borrow time ≤ return time when the clock does not go backwards |
| `Library.BorrowedBookRefusesAll` | Backend/library-management-Backend/app/Http/Controllers/BookController.php:111-116 | every attempt in a run of borrows on a borrowed book is refused, and the tables do not change |
| `Library.OnlyFirstBorrowSucceeds` | Backend/library-management-Backend/app/Http/Controllers/BookController.php:105-134 | in a run of borrow attempts on an available book, exactly the first succeeds, and only its record is added |
| `Library.DestroyIgnoresLoan` | Backend/library-management-Backend/app/Http/Controllers/BookController.php:276-295 | destroy deletes a borrowed book too, and its open record stays in the ledger |
| `Library.EmptyUpdateClearsFields` | Backend/library-management-Backend/app/Http/Controllers/BookController.php:254-258 | an update carrying no fields succeeds on an existing book and nulls title, author, year and genre. Omitted fields are not preserved |
| `Library.NullImageKeepsImage` | Backend/library-management-Backend/app/Http/Controllers/BookController.php:239-259 | an `update` with a null image on an existing book succeeds when the other fields are valid, and keeps the stored image because no file was uploaded |
| `Controller.BookController.Store` | Backend/library-management-Backend/app/Http/Controllers/BookController.php:19-60 | in-place `store`: the new tables and response are those of `Library.Store`, and the method keeps the well-formedness and lending invariants |
| `Controller.BookController.Borrow` | Backend/library-management-Backend/app/Http/Controllers/BookController.php:105-134 | in-place `borrow`: the new tables and response are those of `Library.Borrow`, and the method keeps both invariants |
| `Controller.BookController.Return` | Backend/library-management-Backend/app/Http/Controllers/BookController.php:142-172 | in-place `return`: it clears the flag, then looks up and closes the record. The new tables and response are those of `Library.Return`, and the method keeps both invariants |
| `Controller.BookController.Update` | Backend/library-management-Backend/app/Http/Controllers/BookController.php:207-268 | in-place `update`: the new tables and response are those of `Library.Update`, and the method keeps both invariants |
| `Controller.BookController.Destroy` | Backend/library-management-Backend/app/Http/Controllers/BookController.php:276-302 | in-place `destroy`: the new tables and response are those of `Library.Destroy`, and the method keeps both invariants |

## Left out

- Image files: the `time()`-based file name, moving the upload into
  `uploads/` and deleting the old file on update and destroy are file-system
  I/O and a clock. An upload is a request field, and its stored name is
  supplied by the caller.
- Image validation: the `mimes:png,jpg,jpeg,gif` and `max:2048` rules are
  not spelled out. An upload is either acceptable or `Malformed`.
- Type coercion: a non-null request field of the wrong type (a non-integer
  year, a non-string title) is `Malformed`. String-to-integer parsing is not
  modelled.
- Validation messages: the 422 response carries the set of failing fields,
  not Laravel's message texts.
- Database comparisons: `index` compares by exact equality. Database
  collation (for example case-insensitive matching) and the order of the
  returned rows are not modelled; the listing is a map keyed by id.
- The JSON envelope (`status`, `message`, `data`) and the HTTP status codes
  are replaced by the `Response` datatype.
- Authentication: AuthController.php (signup, login, logout) and the route
  and middleware wiring in routes/api.php delegate to Laravel's validator,
  hashing and Sanctum tokens. The authenticated caller's id is a parameter of
  `borrow`.
- Concurrency: the source takes no lock and uses no transaction, while the
  model runs each action as one sequential step. Interleavings of concurrent
  borrows are not modelled; `Library.OnlyFirstBorrowSucceeds` covers
  attempts made one after another.
- Database failures: a write that breaks a column constraint, such as the
  null title `update` writes into a possibly non-nullable column, is not
  modelled.
  The schema is not part of this model.
- The BorrowRecord model class and the database migrations are not part of
  this model. The fields of `BorrowRecord` are those the controller writes.
