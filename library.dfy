/**
 * The two tables the book controller owns, as one value, and each
 * controller action that writes them as a transition from the old tables to
 * the new tables and the response. `Consistent` is the lending invariant:
 * a book's `isBorrowed` flag is set exactly when the ledger holds one open
 * record for it, and no book ever has more than one open record.
 */
module Library {

  import opened Wrappers
  import opened Models
  import opened Validation
  import opened Ledger

  /** The books table keyed by id, the borrow_records table, and the next id the books table hands out. */
  datatype State = State(books: map<int, Book>, records: seq<BorrowRecord>, nextId: int)

  /** The tables after an action, and what the action answers. */
  datatype Step = Step(state: State, response: Response)

  /** A fresh database: no books, no records, ids counting from 1. */
  const EMPTY := State(map[], [], 1)

  /** Ids are handed out in increasing order: every book and every record refers to an id already issued. */
  predicate WellFormed(s: State)
  {
    && (forall id :: id in s.books ==> id < s.nextId)
    && (forall j :: 0 <= j < |s.records| ==> s.records[j].bookId < s.nextId)
  }

  /** The lending invariant. */
  ghost predicate Consistent(s: State)
  {
    && (forall b :: OpenCount(s.records, b) <= 1)
    && (forall id :: id in s.books ==> (s.books[id].isBorrowed <==> OpenCount(s.records, id) == 1))
  }

  /**
   * `borrow`: a missing book is not found, a borrowed one is refused, and
   * otherwise the flag is set and one open record for the caller is appended.
   */
  function Borrow(s: State, id: int, caller: int, now: int): (t: Step)
    ensures t.response.Ok? <==> id in s.books && !s.books[id].isBorrowed
    ensures id !in s.books ==> t == Step(s, NotFound)
    ensures id in s.books && s.books[id].isBorrowed ==> t == Step(s, AlreadyBorrowed)
    ensures t.response.Ok? ==>
      && t.state.books.Keys == s.books.Keys
      && t.state.books[id] == s.books[id].(isBorrowed := true)
      && t.response.book == t.state.books[id]
      && (forall other :: other in s.books && other != id ==> t.state.books[other] == s.books[other])
      && |t.state.records| == |s.records| + 1
      && t.state.records[..|s.records|] == s.records
      && t.state.records[|s.records|] == BorrowRecord(id, caller, now, None)
      && t.state.nextId == s.nextId
    ensures WellFormed(s) ==> WellFormed(t.state)
  {
    if id !in s.books then Step(s, NotFound)
    else if s.books[id].isBorrowed then Step(s, AlreadyBorrowed)
    else
      var book := s.books[id].(isBorrowed := true);
      var records := s.records + [BorrowRecord(id, caller, now, None)];
      assert records[..|s.records|] == s.records;
      Step(s.(books := s.books[id := book], records := records), Ok(book))
  }

  /**
   * `return`, in the order the source runs it: a missing book is not found
   * and an unborrowed one refused; otherwise the flag is cleared first, and
   * then the earliest open record for the book is closed. When there is no
   * such record the lookup fails with not found, after the flag was cleared.
   */
  function Return(s: State, id: int, now: int): (t: Step)
    ensures id !in s.books ==> t == Step(s, NotFound)
    ensures id in s.books && !s.books[id].isBorrowed ==> t == Step(s, NotBorrowed)
    ensures t.response.Ok? <==> id in s.books && s.books[id].isBorrowed && OpenCount(s.records, id) > 0
    ensures id in s.books && s.books[id].isBorrowed ==>
      t.state.books == s.books[id := s.books[id].(isBorrowed := false)]
    ensures t.response.Ok? ==> t.response.book == t.state.books[id]
    ensures t.response.Ok? ==>
      exists k :: 0 <= k < |s.records| && IsOpenFor(s.records[k], id) && t.state.records == Close(s.records, k, now)
    ensures !t.response.Ok? ==> t.state.records == s.records
    ensures t.state.nextId == s.nextId
    ensures WellFormed(s) ==> WellFormed(t.state)
  {
    if id !in s.books then Step(s, NotFound)
    else if !s.books[id].isBorrowed then Step(s, NotBorrowed)
    else
      var book := s.books[id].(isBorrowed := false);
      var flagCleared := s.(books := s.books[id := book]);
      FirstOpenFinds(s.records, id);
      match FirstOpen(s.records, id)
      case None => Step(flagCleared, NotFound)
      case Some(k) => Step(flagCleared.(records := Close(s.records, k, now)), Ok(book))
  }

  /**
   * `store`: a request that fails validation is answered with the failing
   * fields and writes nothing; otherwise a new row with the next id is
   * inserted, not borrowed.
   */
  function Store(s: State, req: BookRequest, currentYear: int): (t: Step)
    ensures t.response.Created? <==> StoreErrors(req, currentYear) == {}
    ensures !t.response.Created? ==> t == Step(s, Invalid(StoreErrors(req, currentYear)))
    ensures t.response.Created? ==>
      && t.response.id == s.nextId
      && t.state.books == s.books[s.nextId := t.response.book]
      && t.state.nextId > s.nextId
      && t.response.book == Book(Some(req.title.value), Some(req.author.value), Some(req.publicationYear.value),
                                 Some(req.genre.value), req.image.value, false)
    ensures t.state.records == s.records
    ensures WellFormed(s) && t.response.Created? ==> t.response.id !in s.books
    ensures WellFormed(s) ==> WellFormed(t.state)
  {
    var errors := StoreErrors(req, currentYear);
    if errors != {} then Step(s, Invalid(errors))
    else
      StoreAcceptsExactly(req, currentYear);
      var book := Book(Some(req.title.value), Some(req.author.value), Some(req.publicationYear.value),
                       Some(req.genre.value), req.image.value, false);
      Step(s.(books := s.books[s.nextId := book], nextId := s.nextId + 1), Created(s.nextId, book))
  }

  /**
   * `update`: validation runs before the lookup, so an invalid request on a
   * missing id is answered with the failing fields. A valid request on an
   * existing book overwrites all four bibliographic columns with what the
   * request carries (null where it carries nothing), replaces the image only
   * when a new one was uploaded, and leaves the borrow flag alone.
   */
  function Update(s: State, id: int, req: BookRequest, currentYear: int): (t: Step)
    ensures UpdateErrors(req, currentYear) != {} ==> t == Step(s, Invalid(UpdateErrors(req, currentYear)))
    ensures UpdateErrors(req, currentYear) == {} && id !in s.books ==> t == Step(s, NotFound)
    ensures t.response.Ok? <==> UpdateErrors(req, currentYear) == {} && id in s.books
    ensures t.response.Ok? ==>
      && t.state == s.(books := s.books[id := t.response.book])
      && t.response.book.title == Carried(req.title)
      && t.response.book.author == Carried(req.author)
      && t.response.book.publicationYear == Carried(req.publicationYear)
      && t.response.book.genre == Carried(req.genre)
      && t.response.book.image == (if req.image.Present? then req.image.value else s.books[id].image)
      && t.response.book.isBorrowed == s.books[id].isBorrowed
    ensures t.state.records == s.records
    ensures WellFormed(s) ==> WellFormed(t.state)
  {
    var errors := UpdateErrors(req, currentYear);
    if errors != {} then Step(s, Invalid(errors))
    else if id !in s.books then Step(s, NotFound)
    else
      var current := s.books[id];
      var image := if req.image.Present? then req.image.value else current.image;
      var book := current.(title := Carried(req.title), author := Carried(req.author),
                           publicationYear := Carried(req.publicationYear), genre := Carried(req.genre),
                           image := image);
      Step(s.(books := s.books[id := book]), Ok(book))
  }

  /** `destroy`: a missing book is not found; any existing row is removed, borrowed or not, and the ledger is left as it is. */
  function Destroy(s: State, id: int): (t: Step)
    ensures t.response.Deleted? <==> id in s.books
    ensures id !in s.books ==> t == Step(s, NotFound)
    ensures t.response.Deleted? ==>
      && t.state.books.Keys == s.books.Keys - {id}
      && (forall other :: other in t.state.books ==> t.state.books[other] == s.books[other])
      && t.state.records == s.records && t.state.nextId == s.nextId
    ensures WellFormed(s) ==> WellFormed(t.state)
  {
    if id !in s.books then Step(s, NotFound)
    else Step(s.(books := s.books - {id}), Deleted)
  }

  // ---------------------------------------------------------------------
  // The lending invariant holds initially and every action keeps it.
  // ---------------------------------------------------------------------

  lemma EmptyIsConsistent()
    ensures WellFormed(EMPTY) && Consistent(EMPTY)
  {
  }

  lemma BorrowKeepsConsistent(s: State, id: int, caller: int, now: int)
    requires Consistent(s)
    ensures Consistent(Borrow(s, id, caller, now).state)
  {
  }

  lemma ReturnKeepsConsistent(s: State, id: int, now: int)
    requires Consistent(s)
    ensures Consistent(Return(s, id, now).state)
  {
    var t := Return(s, id, now);
    if id in s.books && s.books[id].isBorrowed {
      FirstOpenFinds(s.records, id);
      var k :| 0 <= k < |s.records| && IsOpenFor(s.records[k], id) && t.state.records == Close(s.records, k, now);
      forall b
        ensures OpenCount(t.state.records, b) == OpenCount(s.records, b) - (if b == id then 1 else 0)
      {
        CloseCount(s.records, k, now, b);
      }
    }
  }

  lemma StoreKeepsConsistent(s: State, req: BookRequest, currentYear: int)
    requires WellFormed(s) && Consistent(s)
    ensures Consistent(Store(s, req, currentYear).state)
  {
    NoRecordsForBook(s.records, s.nextId);
  }

  lemma UpdateKeepsConsistent(s: State, id: int, req: BookRequest, currentYear: int)
    requires Consistent(s)
    ensures Consistent(Update(s, id, req, currentYear).state)
  {
  }

  lemma DestroyKeepsConsistent(s: State, id: int)
    requires Consistent(s)
    ensures Consistent(Destroy(s, id).state)
  {
  }

  // ---------------------------------------------------------------------
  // What the invariant buys, and the lending life cycle.
  // ---------------------------------------------------------------------

  /** Under the invariant, returning a borrowed book always finds its open record. */
  lemma ConsistentReturnSucceeds(s: State, id: int, now: int)
    requires Consistent(s) && id in s.books && s.books[id].isBorrowed
    ensures Return(s, id, now).response == Ok(s.books[id].(isBorrowed := false))
  {
  }

  /**
   * The order of `return` made visible: when a book is flagged borrowed but
   * has no open record, the lookup fails with not found after the flag has
   * already been cleared. Such a state breaks the invariant, so this never
   * happens from a consistent state.
   */
  lemma ReturnWithoutOpenRecord(s: State, id: int, now: int)
    requires id in s.books && s.books[id].isBorrowed && OpenCount(s.records, id) == 0
    ensures Return(s, id, now).response == NotFound
    ensures !Return(s, id, now).state.books[id].isBorrowed
    ensures !Consistent(s)
  {
  }

  /** Borrowing is not idempotent: straight after a successful borrow, any further borrow is refused and changes nothing. */
  lemma BorrowTwiceFails(s: State, id: int, caller: int, caller': int, now: int, now': int)
    requires Borrow(s, id, caller, now).response.Ok?
    ensures var s' := Borrow(s, id, caller, now).state;
            Borrow(s', id, caller', now') == Step(s', AlreadyBorrowed)
  {
  }

  /** Returning is not idempotent: straight after a successful return, a second one is refused and changes nothing. */
  lemma ReturnTwiceFails(s: State, id: int, now: int, now': int)
    requires Return(s, id, now).response.Ok?
    ensures var s' := Return(s, id, now).state;
            Return(s', id, now') == Step(s', NotBorrowed)
  {
  }

  /**
   * Borrow then return on a consistent state: both succeed, the books table
   * is back as it was, and the ledger has gained exactly one closed record,
   * for the borrower, whose return time is not before its borrow time when
   * the clock does not go backwards.
   */
  lemma BorrowThenReturn(s: State, id: int, caller: int, borrowedAt: int, returnedAt: int)
    requires Consistent(s) && id in s.books && !s.books[id].isBorrowed
    requires borrowedAt <= returnedAt
    ensures var b := Borrow(s, id, caller, borrowedAt);
            var r := Return(b.state, id, returnedAt);
            && b.response.Ok? && r.response.Ok?
            && r.state.books == s.books && r.state.nextId == s.nextId
            && r.state.records == s.records + [BorrowRecord(id, caller, borrowedAt, Some(returnedAt))]
            && r.state.records[|s.records|].borrowedAt <= r.state.records[|s.records|].returnedAt.value
  {
    var b := Borrow(s, id, caller, borrowedAt);
    var n := |s.records|;
    assert OpenCount(s.records, id) == 0;
    NoOpenRecord(s.records, id);
    var found := FirstOpen(b.state.records, id);
    assert IsOpenFor(b.state.records[n], id);
    assert found == Some(n) by {
      assert forall j :: 0 <= j < n ==> b.state.records[j] == s.records[j];
    }
    var r := Return(b.state, id, returnedAt);
    assert r.state.records == Close(b.state.records, n, returnedAt);
    assert r.state.records == s.records + [BorrowRecord(id, caller, borrowedAt, Some(returnedAt))];
  }

  // ---------------------------------------------------------------------
  // A run of borrow attempts on one book, one after another.
  // ---------------------------------------------------------------------

  /** One request to borrow: who asks, and when. */
  datatype Attempt = Attempt(caller: int, at: int)

  /** The attempts applied in order, with the response each one gets. */
  function BorrowEach(s: State, id: int, attempts: seq<Attempt>): (t: (State, seq<Response>))
    ensures |t.1| == |attempts|
    decreases |attempts|
  {
    if attempts == [] then (s, [])
    else
      var first := Borrow(s, id, attempts[0].caller, attempts[0].at);
      var rest := BorrowEach(first.state, id, attempts[1..]);
      (rest.0, [first.response] + rest.1)
  }

  /** Once a book is out, every further attempt is refused and the tables do not change. */
  lemma {:induction false} BorrowedBookRefusesAll(s: State, id: int, attempts: seq<Attempt>)
    requires id in s.books && s.books[id].isBorrowed
    ensures BorrowEach(s, id, attempts).0 == s
    ensures forall i :: 0 <= i < |attempts| ==> BorrowEach(s, id, attempts).1[i] == AlreadyBorrowed
  {
    if attempts != [] {
      BorrowedBookRefusesAll(s, id, attempts[1..]);
    }
  }

  /** Of a run of attempts on an available book, exactly the first succeeds, and it alone adds a record. */
  lemma OnlyFirstBorrowSucceeds(s: State, id: int, attempts: seq<Attempt>)
    requires id in s.books && !s.books[id].isBorrowed && |attempts| > 0
    ensures var t := BorrowEach(s, id, attempts);
            && t.1[0].Ok?
            && (forall i :: 1 <= i < |attempts| ==> t.1[i] == AlreadyBorrowed)
            && t.0.records == s.records + [BorrowRecord(id, attempts[0].caller, attempts[0].at, None)]
  {
    var first := Borrow(s, id, attempts[0].caller, attempts[0].at);
    BorrowedBookRefusesAll(first.state, id, attempts[1..]);
    assert first.state.records == s.records + [BorrowRecord(id, attempts[0].caller, attempts[0].at, None)];
  }

  /** `destroy` does not look at the loan: a borrowed book is deleted and its open record stays in the ledger. */
  lemma DestroyIgnoresLoan(s: State, id: int)
    requires Consistent(s) && id in s.books && s.books[id].isBorrowed
    ensures Destroy(s, id).response == Deleted
    ensures id !in Destroy(s, id).state.books
    ensures OpenCount(Destroy(s, id).state.records, id) == 1
  {
  }

  /** An `update` that carries no field succeeds on an existing book and nulls all four bibliographic columns. */
  lemma EmptyUpdateClearsFields(s: State, id: int, currentYear: int)
    requires id in s.books
    ensures var t := Update(s, id, BookRequest(Absent, Absent, Absent, Absent, Absent), currentYear);
            && t.response.Ok?
            && t.response.book == s.books[id].(title := None, author := None, publicationYear := None, genre := None)
  {
    EmptyRequestPassesUpdate(currentYear);
  }

  /**
   * An `update` whose image is null (or sent empty) is valid as far as the
   * image goes, and keeps the stored image, because no file was uploaded.
   */
  lemma NullImageKeepsImage(s: State, id: int, req: BookRequest, currentYear: int)
    requires id in s.books && req.image.Null?
    requires UpdateErrors(req.(image := Absent), currentYear) == {}
    ensures Update(s, id, req, currentYear).response.Ok?
    ensures Update(s, id, req, currentYear).state.books[id].image == s.books[id].image
  {
    NullImage(req, currentYear);
    assert req.(image := Null) == req;
  }
}
