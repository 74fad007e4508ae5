/**
 * TransactionService (api/services.py lines 177-234): renting copies of a
 * book, guarded by an overdue-debt cap and the book's stock, and returning
 * a rental, which puts its copies back on the shelf.
 */
module Ledger {
  import opened Wrappers
  import opened Models
  import opened Db
  import Tables

  /** The errors a rental or a return raises. */
  datatype LedgerError =
    | Overdue                 // the debt read for the request is above the cap
    | OutOfStock              // the book has no copy left
    | StockShortage(stock: int) // fewer copies than requested; the message carries the stock
    | BookMissing             // the book row is gone: the source dereferences None
    | NoResultFound           // no transaction with that id

  /** The body of a rental request. */
  datatype RentRequest = RentRequest(
    member: nat,
    book: nat,
    numCopies: int,
    dateRented: Option<Timestamp>,
    dateReturn: Option<Timestamp>)

  /** A transaction's contribution to what `member` owes: its rent while it is open. */
  function OpenRentOf(member: nat): Transaction -> int
  {
    (t: Transaction) => if t.member == member && t.IsOpen() then t.rent else 0
  }

  /** The sum of rent over the open transactions of a member. */
  function Due(s: Snapshot, member: nat): (d: int)
    ensures (forall id :: id in s.transactions && s.transactions[id].member == member && s.transactions[id].IsOpen() ==>
               s.transactions[id].rent >= 0) ==> d >= 0
    ensures (forall id :: id in s.transactions && s.transactions[id].member == member ==> !s.transactions[id].IsOpen()) ==> d == 0
  {
    Tables.SumBelowSign(s.transactions, s.nextTransactionId, OpenRentOf(member));
    Tables.SumBelow(s.transactions, s.nextTransactionId, OpenRentOf(member))
  }

  /**
   * add_transaction. The debt is summed for the member id read from the
   * request's `book` field, as the source does; the new transaction is
   * charged to the request's `member`. The cap is exceeded only strictly.
   * A zero stock and a too small stock are distinct errors, and the copy
   * count is not checked for sign.
   */
  function Rent(s: Snapshot, maxAllowedDue: int, req: RentRequest, now: Timestamp): (r: Step<Result<nat, LedgerError>>)
    requires Valid(s)
    ensures Valid(r.store)
    ensures r.result.Failure? ==> r.store == s
    ensures r.result == Failure(Overdue) <==> Due(s, req.book) > maxAllowedDue
    ensures r.result == Failure(BookMissing) <==> Due(s, req.book) <= maxAllowedDue && req.book !in s.books
    ensures r.result == Failure(OutOfStock) <==>
              Due(s, req.book) <= maxAllowedDue && req.book in s.books && s.books[req.book].stock == 0
    ensures (r.result.Failure? && r.result.error.StockShortage?) <==>
              && Due(s, req.book) <= maxAllowedDue && req.book in s.books
              && s.books[req.book].stock != 0 && s.books[req.book].stock < req.numCopies
    ensures r.result.Failure? && r.result.error.StockShortage? ==> r.result.error.stock == s.books[req.book].stock
    ensures r.result.Failure? ==> !r.result.error.NoResultFound?
    ensures r.result.Success? ==>
              var b := s.books[req.book];
              && r.result.value !in s.transactions
              && r.store.books == s.books[req.book := b.(stock := b.stock - req.numCopies)]
              && 0 <= r.store.books[req.book].stock == b.stock - req.numCopies
              && r.store.transactions == s.transactions[r.result.value :=
                   NewTransaction(req.member, req.book, req.numCopies, req.numCopies * b.price,
                                  req.dateRented, req.dateReturn, now)]
              && r.store.users == s.users
  {
    if Due(s, req.book) > maxAllowedDue then Step(s, Failure(Overdue))
    else if req.book !in s.books then Step(s, Failure(BookMissing))
    else
      var b := s.books[req.book];
      if b.stock == 0 then Step(s, Failure(OutOfStock))
      else if b.stock < req.numCopies then Step(s, Failure(StockShortage(b.stock)))
      else
        var t := NewTransaction(req.member, req.book, req.numCopies, req.numCopies * b.price,
                                req.dateRented, req.dateReturn, now);
        var id := s.nextTransactionId;
        Step(s.(books := s.books[req.book := b.(stock := b.stock - req.numCopies)],
                transactions := s.transactions[id := t],
                nextTransactionId := id + 1),
             Success(id))
  }

  /**
   * update_transaction: the rented copies go back into the book's stock
   * and the return date is set to the clock. Whether the transaction was
   * already returned is not checked.
   */
  function Return(s: Snapshot, transactionId: nat, now: Timestamp): (r: Step<Outcome<LedgerError>>)
    requires Valid(s)
    ensures Valid(r.store)
    ensures r.result.Fail? ==> r.store == s
    ensures r.result == Fail(NoResultFound) <==> transactionId !in s.transactions
    ensures r.result == Fail(BookMissing) <==>
              transactionId in s.transactions && s.transactions[transactionId].book !in s.books
    ensures r.result.Pass? ==>
              var t := s.transactions[transactionId];
              var b := s.books[t.book];
              && r.store.books == s.books[t.book := b.(stock := b.stock + t.numCopies)]
              && r.store.transactions == s.transactions[transactionId := t.(dateReturn := Some(now))]
              && r.store.users == s.users
  {
    if transactionId !in s.transactions then Step(s, Fail(NoResultFound))
    else
      var t := s.transactions[transactionId];
      if t.book !in s.books then Step(s, Fail(BookMissing))
      else
        var b := s.books[t.book];
        Step(s.(books := s.books[t.book := b.(stock := b.stock + t.numCopies)],
                transactions := s.transactions[transactionId := t.(dateReturn := Some(now))]),
             Pass)
  }

  /** A successful rental adds its rent to the debt of the requesting member, when it is open, and to nobody else's. */
  lemma RentChargesRenter(s: Snapshot, maxAllowedDue: int, req: RentRequest, now: Timestamp, m: nat)
    requires Valid(s)
    requires Rent(s, maxAllowedDue, req, now).result.Success?
    ensures Due(Rent(s, maxAllowedDue, req, now).store, m) ==
              Due(s, m) + (if m == req.member && req.dateReturn.None? then req.numCopies * s.books[req.book].price else 0)
  {
    var r := Rent(s, maxAllowedDue, req, now);
    var id := s.nextTransactionId;
    var t := r.store.transactions[id];
    Tables.SumBelowUpdate(s.transactions, id + 1, OpenRentOf(m), id, t);
    assert Tables.SumBelow(s.transactions, id + 1, OpenRentOf(m)) == Tables.SumBelow(s.transactions, id, OpenRentOf(m));
  }

  /** Returning a transaction takes its rent off its member's debt if it was open; no other debt moves. */
  lemma ReturnSettlesDue(s: Snapshot, transactionId: nat, now: Timestamp, m: nat)
    requires Valid(s)
    requires Return(s, transactionId, now).result.Pass?
    ensures var t := s.transactions[transactionId];
            Due(Return(s, transactionId, now).store, m) ==
              Due(s, m) - (if t.member == m && t.IsOpen() then t.rent else 0)
  {
    var t := s.transactions[transactionId];
    Tables.SumBelowUpdate(s.transactions, s.nextTransactionId, OpenRentOf(m), transactionId, t.(dateReturn := Some(now)));
  }

  /** A transaction's contribution to the copies of `book` that are out: its copy count while it is open. */
  function OpenCopiesOf(book: nat): Transaction -> int
  {
    (t: Transaction) => if t.book == book && t.IsOpen() then t.numCopies else 0
  }

  /** The copies of a book the library holds: on the shelf plus out on open rentals. */
  function Holdings(s: Snapshot, book: nat): int
    requires book in s.books
  {
    s.books[book].stock + Tables.SumBelow(s.transactions, s.nextTransactionId, OpenCopiesOf(book))
  }

  /**
   * A successful rental moves copies from the shelf to an open transaction:
   * the holdings of every book stay the same, unless the request itself
   * marked the new transaction returned.
   */
  lemma RentKeepsHoldings(s: Snapshot, maxAllowedDue: int, req: RentRequest, now: Timestamp, book: nat)
    requires Valid(s)
    requires Rent(s, maxAllowedDue, req, now).result.Success?
    requires book in s.books
    ensures book in Rent(s, maxAllowedDue, req, now).store.books
    ensures Holdings(Rent(s, maxAllowedDue, req, now).store, book) ==
              Holdings(s, book) - (if book == req.book && req.dateReturn.Some? then req.numCopies else 0)
  {
    var r := Rent(s, maxAllowedDue, req, now);
    var id := s.nextTransactionId;
    Tables.SumBelowUpdate(s.transactions, id + 1, OpenCopiesOf(book), id, r.store.transactions[id]);
    assert Tables.SumBelow(s.transactions, id + 1, OpenCopiesOf(book)) == Tables.SumBelow(s.transactions, id, OpenCopiesOf(book));
  }

  /**
   * Returning an open transaction moves its copies back to the shelf and
   * keeps the holdings; returning one already returned credits its copies
   * a second time.
   */
  lemma ReturnHoldings(s: Snapshot, transactionId: nat, now: Timestamp, book: nat)
    requires Valid(s)
    requires Return(s, transactionId, now).result.Pass?
    requires book in s.books
    ensures book in Return(s, transactionId, now).store.books
    ensures var t := s.transactions[transactionId];
            Holdings(Return(s, transactionId, now).store, book) ==
              Holdings(s, book) + (if book == t.book && !t.IsOpen() then t.numCopies else 0)
  {
    var t := s.transactions[transactionId];
    Tables.SumBelowUpdate(s.transactions, s.nextTransactionId, OpenCopiesOf(book), transactionId, t.(dateReturn := Some(now)));
  }

  /** Returning the rental just made puts the books table back as it was and closes the rental. */
  lemma RentThenReturn(s: Snapshot, maxAllowedDue: int, req: RentRequest, now: Timestamp, later: Timestamp)
    requires Valid(s)
    requires Rent(s, maxAllowedDue, req, now).result.Success?
    ensures var r1 := Rent(s, maxAllowedDue, req, now);
            var r2 := Return(r1.store, r1.result.value, later);
            && r2.result.Pass?
            && r2.store.books == s.books
            && r2.store.transactions[r1.result.value].dateReturn == Some(later)
  {
    var r1 := Rent(s, maxAllowedDue, req, now);
    var b := s.books[req.book];
    assert r1.store.books[req.book] == b.(stock := b.stock - req.numCopies);
  }

  /** With no already-returned check, returning the same transaction twice credits its copies twice. */
  lemma ReturnTwiceCreditsTwice(s: Snapshot, transactionId: nat, first: Timestamp, second: Timestamp)
    requires Valid(s)
    requires Return(s, transactionId, first).result.Pass?
    ensures var t := s.transactions[transactionId];
            var r1 := Return(s, transactionId, first);
            var r2 := Return(r1.store, transactionId, second);
            && r2.result.Pass?
            && r2.store.books[t.book].stock == s.books[t.book].stock + 2 * t.numCopies
            && r2.store.transactions[transactionId].dateReturn == Some(second)
  {
  }

  /** One book (id 1) in stock and one open rental of it by member 7 for `rent`. */
  function OneRentalStore(rent: int): (s: Snapshot)
    ensures Valid(s)
  {
    Snapshot(map[1 := Book("Lean In", "0385349949", "Sheryl Sandberg", 30, 5)], map[],
             map[0 := Transaction(7, 1, 2, rent, 0, None)], 2, 0, 1)
  }

  /**
   * The debt checked is the one of the member whose id equals the requested
   * book id: member 7, owing more than the cap, still rents book 1, while
   * member 3, owing nothing, is refused book 7.
   */
  lemma OverdueCheckReadsBookId()
    ensures var s := OneRentalStore(60);
            && Due(s, 7) > 50 && Rent(s, 50, RentRequest(7, 1, 1, None, None), 0).result.Success?
            && Due(s, 3) == 0 && Rent(s, 50, RentRequest(3, 7, 1, None, None), 0).result == Failure(Overdue)
  {
    var s := OneRentalStore(60);
    assert Due(s, 7) == 60;
    assert Due(s, 1) == 0;
    assert Due(s, 3) == 0;
  }

  /**
   * The cap is strict: with 60 owed under the id 7, a request for book 7
   * passes the debt check under a cap of 60 (and then fails on the missing
   * book), but is refused as overdue under a cap of 59.
   */
  lemma DebtAtCapPasses()
    ensures var s := OneRentalStore(60);
            && Rent(s, 60, RentRequest(3, 7, 1, None, None), 0).result == Failure(BookMissing)
            && Rent(s, 59, RentRequest(3, 7, 1, None, None), 0).result == Failure(Overdue)
  {
    var s := OneRentalStore(60);
    assert Due(s, 7) == 60;
  }

  /**
   * Book 1 at stock 5 and price 30: renting 2 copies leaves 3 and charges
   * 60; then asking for 10 reports a shortage of the 3 left; returning the
   * rental brings the stock back to 5.
   */
  lemma ShelfScenario()
    ensures var s0 := Snapshot(map[1 := Book("Lean In", "0385349949", "Sheryl Sandberg", 30, 5)], map[], map[], 2, 0, 0);
            var r1 := Rent(s0, 100, RentRequest(1, 1, 2, None, None), 0);
            var r2 := Rent(r1.store, 100, RentRequest(1, 1, 10, None, None), 1);
            var r3 := Return(r2.store, r1.result.value, 2);
            && r1.result.Success?
            && r1.store.books[1].stock == 3
            && r1.store.transactions[r1.result.value].rent == 60
            && r2.result == Failure(StockShortage(3))
            && r3.result.Pass? && r3.store.books[1].stock == 5
  {
    var s0 := Snapshot(map[1 := Book("Lean In", "0385349949", "Sheryl Sandberg", 30, 5)], map[], map[], 2, 0, 0);
    assert Due(s0, 1) == 0;
    var r1 := Rent(s0, 100, RentRequest(1, 1, 2, None, None), 0);
    assert Due(r1.store, 1) == 60 by {
      RentChargesRenter(s0, 100, RentRequest(1, 1, 2, None, None), 0, 1);
    }
  }

  /**
   * Without a sign check on the copy count, rentals that all succeed and a
   * return can leave a negative stock: renting -3 copies of a book with
   * stock 1 raises it to 4, renting 4 empties it, and returning the first
   * rental takes 3 more copies away.
   */
  lemma NegativeCopiesDriveStockNegative()
    ensures var s0 := Snapshot(map[1 := Book("Lean In", "0385349949", "Sheryl Sandberg", 30, 1)], map[], map[], 2, 0, 0);
            var r1 := Rent(s0, 1000, RentRequest(1, 1, -3, None, None), 0);
            var r2 := Rent(r1.store, 1000, RentRequest(1, 1, 4, None, None), 1);
            var r3 := Return(r2.store, r1.result.value, 2);
            && s0.books[1].stock >= 0
            && r1.result.Success? && r2.result.Success? && r3.result.Pass?
            && r3.store.books[1].stock == -3
  {
    var s0 := Snapshot(map[1 := Book("Lean In", "0385349949", "Sheryl Sandberg", 30, 1)], map[], map[], 2, 0, 0);
    assert Due(s0, 1) == 0;
    var r1 := Rent(s0, 1000, RentRequest(1, 1, -3, None, None), 0);
    assert Due(r1.store, 1) == -90 by {
      RentChargesRenter(s0, 1000, RentRequest(1, 1, -3, None, None), 0, 1);
    }
  }
}
