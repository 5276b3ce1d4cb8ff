/**
 * The borrow_records table as a sequence in insertion order: how many open
 * loans a book has, the lookup `return` performs to find the open record,
 * and closing that record.
 */
module Ledger {

  import opened Wrappers
  import opened Models

  /** A record of a loan of `bookId` that has not been returned yet. */
  predicate IsOpenFor(r: BorrowRecord, bookId: int)
  {
    r.bookId == bookId && r.returnedAt.None?
  }

  /** The number of open records for `bookId`. */
  function OpenCount(records: seq<BorrowRecord>, bookId: int): (n: nat)
    ensures n <= |records|
  {
    if records == [] then 0
    else
      OpenCount(records[..|records| - 1], bookId)
      + (if IsOpenFor(records[|records| - 1], bookId) then 1 else 0)
  }

  /**
   * The query `where book_id = bookId, whereNull returned_at, first`: the
   * position of the earliest open record for `bookId`, if there is one.
   */
  function FirstOpen(records: seq<BorrowRecord>, bookId: int): (r: Option<nat>)
    ensures r.Some? ==> r.value < |records| && IsOpenFor(records[r.value], bookId)
    ensures r.Some? ==> forall j :: 0 <= j < r.value ==> !IsOpenFor(records[j], bookId)
    ensures r.None? ==> forall j :: 0 <= j < |records| ==> !IsOpenFor(records[j], bookId)
  {
    if records == [] then None
    else if IsOpenFor(records[0], bookId) then Some(0)
    else
      match FirstOpen(records[1..], bookId)
      case None => None
      case Some(k) => Some(k + 1)
  }

  /** Record `k` with its return time set to `now`; every other record as it was. */
  function Close(records: seq<BorrowRecord>, k: nat, now: int): (r: seq<BorrowRecord>)
    requires k < |records|
    ensures |r| == |records| && r[k].returnedAt == Some(now)
    ensures forall j :: 0 <= j < |r| && j != k ==> r[j] == records[j]
    ensures r[k].bookId == records[k].bookId && r[k].userId == records[k].userId
    ensures r[k].borrowedAt == records[k].borrowedAt
  {
    records[k := records[k].(returnedAt := Some(now))]
  }

  /** A book has no open record exactly when no record is open for it. */
  lemma {:induction false} NoOpenRecord(records: seq<BorrowRecord>, bookId: int)
    ensures OpenCount(records, bookId) == 0 <==>
            forall j :: 0 <= j < |records| ==> !IsOpenFor(records[j], bookId)
  {
    if records != [] {
      var prefix := records[..|records| - 1];
      NoOpenRecord(prefix, bookId);
      assert forall j :: 0 <= j < |prefix| ==> prefix[j] == records[j];
    }
  }

  /** The lookup of `return` finds a record exactly when the book has an open one. */
  lemma FirstOpenFinds(records: seq<BorrowRecord>, bookId: int)
    ensures FirstOpen(records, bookId).Some? <==> OpenCount(records, bookId) > 0
  {
    NoOpenRecord(records, bookId);
  }

  /** Appending a record adds one open loan to its own book if it is open, and none to any other. */
  lemma AppendCount(records: seq<BorrowRecord>, r: BorrowRecord, bookId: int)
    ensures OpenCount(records + [r], bookId)
            == OpenCount(records, bookId) + (if IsOpenFor(r, bookId) then 1 else 0)
  {
    assert (records + [r])[..|records|] == records;
  }

  /** Closing an open record removes one open loan from its own book and none from any other. */
  lemma {:induction false} CloseCount(records: seq<BorrowRecord>, k: nat, now: int, bookId: int)
    requires k < |records| && records[k].returnedAt.None?
    ensures OpenCount(Close(records, k, now), bookId)
            == OpenCount(records, bookId) - (if records[k].bookId == bookId then 1 else 0)
  {
    var closed := Close(records, k, now);
    var last := |records| - 1;
    assert closed[..last] == if k == last then records[..last] else Close(records[..last], k, now);
    if k < last {
      CloseCount(records[..last], k, now, bookId);
    }
  }

  /** A book none of whose records are for it, in particular a book newer than every record, has no open loan. */
  lemma NoRecordsForBook(records: seq<BorrowRecord>, bookId: int)
    requires forall j :: 0 <= j < |records| ==> records[j].bookId != bookId
    ensures OpenCount(records, bookId) == 0
  {
    NoOpenRecord(records, bookId);
  }
}
