/**
 * The book controller as an object that owns the books table and the
 * borrow_records table and updates them in place, one action at a time.
 * Each action is proved to leave the tables and answer exactly as the
 * matching transition of `Library` says, and to keep the lending invariant.
 * The caller's user id, the clock and the current year are parameters.
 */
module Controller {

  import opened Wrappers
  import opened Models
  import opened Validation
  import opened Ledger
  import Library

  class BookController {
    var books: map<int, Book>
    var records: seq<BorrowRecord>
    var nextId: int

    /** The two tables as a value. */
    function Tables(): Library.State
      reads this
    {
      Library.State(books, records, nextId)
    }

    ghost predicate Valid()
      reads this
    {
      Library.WellFormed(Tables())
    }

    /** A book is flagged borrowed exactly when the ledger has its one open record. */
    ghost predicate Consistent()
      reads this
    {
      Library.Consistent(Tables())
    }

    constructor ()
      ensures Valid() && Consistent()
      ensures Tables() == Library.EMPTY
    {
      books := map[];
      records := [];
      nextId := 1;
      Library.EmptyIsConsistent();
    }

    method Store(req: BookRequest, currentYear: int) returns (r: Response)
      requires Valid()
      modifies this
      ensures Library.Step(Tables(), r) == Library.Store(old(Tables()), req, currentYear)
      ensures Valid()
      ensures old(Consistent()) ==> Consistent()
    {
      ghost var before := Tables();
      var errors := StoreErrors(req, currentYear);
      if errors != {} {
        return Invalid(errors);
      }
      var book := Book(Some(req.title.value), Some(req.author.value), Some(req.publicationYear.value),
                       Some(req.genre.value), req.image.value, false);
      r := Created(nextId, book);
      books := books[nextId := book];
      nextId := nextId + 1;
      if Library.Consistent(before) {
        Library.StoreKeepsConsistent(before, req, currentYear);
      }
    }

    method Borrow(id: int, caller: int, now: int) returns (r: Response)
      requires Valid()
      modifies this
      ensures Library.Step(Tables(), r) == Library.Borrow(old(Tables()), id, caller, now)
      ensures Valid()
      ensures old(Consistent()) ==> Consistent()
    {
      ghost var before := Tables();
      if id !in books {
        return NotFound;
      }
      var book := books[id];
      if book.isBorrowed {
        return AlreadyBorrowed;
      }
      book := book.(isBorrowed := true);
      books := books[id := book];
      records := records + [BorrowRecord(id, caller, now, None)];
      r := Ok(book);
      if Library.Consistent(before) {
        Library.BorrowKeepsConsistent(before, id, caller, now);
      }
    }

    /** The flag is cleared before the open record is looked up, as in the source. */
    method Return(id: int, now: int) returns (r: Response)
      requires Valid()
      modifies this
      ensures Library.Step(Tables(), r) == Library.Return(old(Tables()), id, now)
      ensures Valid()
      ensures old(Consistent()) ==> Consistent()
    {
      ghost var before := Tables();
      if id !in books {
        return NotFound;
      }
      var book := books[id];
      if !book.isBorrowed {
        return NotBorrowed;
      }
      book := book.(isBorrowed := false);
      books := books[id := book];
      var found := FirstOpen(records, id);
      if found.None? {
        r := NotFound;
      } else {
        records := Close(records, found.value, now);
        r := Ok(book);
      }
      if Library.Consistent(before) {
        Library.ReturnKeepsConsistent(before, id, now);
      }
    }

    method Update(id: int, req: BookRequest, currentYear: int) returns (r: Response)
      requires Valid()
      modifies this
      ensures Library.Step(Tables(), r) == Library.Update(old(Tables()), id, req, currentYear)
      ensures Valid()
      ensures old(Consistent()) ==> Consistent()
    {
      ghost var before := Tables();
      var errors := UpdateErrors(req, currentYear);
      if errors != {} {
        return Invalid(errors);
      }
      if id !in books {
        return NotFound;
      }
      var book := books[id];
      var image := book.image;
      if req.image.Present? {
        image := req.image.value;
      }
      book := book.(title := Carried(req.title), author := Carried(req.author),
                    publicationYear := Carried(req.publicationYear), genre := Carried(req.genre),
                    image := image);
      books := books[id := book];
      r := Ok(book);
      if Library.Consistent(before) {
        Library.UpdateKeepsConsistent(before, id, req, currentYear);
      }
    }

    method Destroy(id: int) returns (r: Response)
      requires Valid()
      modifies this
      ensures Library.Step(Tables(), r) == Library.Destroy(old(Tables()), id)
      ensures Valid()
      ensures old(Consistent()) ==> Consistent()
    {
      ghost var before := Tables();
      if id !in books {
        return NotFound;
      }
      books := books - {id};
      r := Deleted;
      if Library.Consistent(before) {
        Library.DestroyKeepsConsistent(before, id);
      }
    }
  }

  /**
   * A client: add "1984", borrow it as user 7, fail to borrow it as user 9,
   * return it. Everything asserted follows from the contracts above.
   */
  method LendingScenario()
  {
    var library := new BookController();
    var req := BookRequest(Present("1984"), Present("Orwell"), Present(1949), Present("Dystopia"), Present("cover.jpg"));
    assert !Blank("1984") && !Blank("Orwell") && !Blank("Dystopia") by {
      assert "1984"[0] !in TRIMMED && "Orwell"[0] !in TRIMMED && "Dystopia"[0] !in TRIMMED;
    }
    StoreAcceptsExactly(req, 2024);
    var created := library.Store(req, 2024);
    assert created == Created(1, Book(Some("1984"), Some("Orwell"), Some(1949), Some("Dystopia"), "cover.jpg", false));

    var first := library.Borrow(1, 7, 100);
    assert first == Ok(Book(Some("1984"), Some("Orwell"), Some(1949), Some("Dystopia"), "cover.jpg", true));
    assert library.records == [BorrowRecord(1, 7, 100, None)];

    var second := library.Borrow(1, 9, 101);
    assert second == AlreadyBorrowed;
    assert library.records == [BorrowRecord(1, 7, 100, None)];

    var back := library.Return(1, 102);
    assert back == Ok(Book(Some("1984"), Some("Orwell"), Some(1949), Some("Dystopia"), "cover.jpg", false));
    assert library.records == [BorrowRecord(1, 7, 100, Some(102))];

    var again := library.Return(1, 103);
    assert again == NotBorrowed;

    YearBoundaries(req, 2024);
    var early := library.Store(req.(publicationYear := Present(1899)), 2024);
    assert early == Invalid({PublicationYear});
  }
}
