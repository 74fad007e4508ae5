/**
 * The service objects of api/services.py over one database object. Each
 * method reads and writes the database's tables step by step, as the
 * source does through the ORM session, and commits as one atomic update:
 * its result and the new tables are those of the matching operation of
 * Books, Users or Ledger applied to the tables before the call.
 */
module Services {
  import opened Wrappers
  import opened Models
  import opened Db
  import Books
  import Users
  import Ledger

  /** The three tables and the id sequences of the store. */
  class Database {
    var books: map<nat, Book>
    var users: map<nat, User>
    var transactions: map<nat, Transaction>
    var nextBookId: nat
    var nextUserId: nat
    var nextTransactionId: nat

    /** The tables as a value. */
    function State(): Snapshot
      reads this
    {
      Snapshot(books, users, transactions, nextBookId, nextUserId, nextTransactionId)
    }

    ghost predicate Valid()
      reads this
    {
      Db.Valid(State())
    }

    /** db.create_all(): empty tables. */
    constructor ()
      ensures Valid() && State() == Empty
    {
      books, users, transactions := map[], map[], map[];
      nextBookId, nextUserId, nextTransactionId := 0, 0, 0;
    }
  }

  /** BookService. */
  class BookService {
    const db: Database

    constructor (db: Database)
      ensures this.db == db
    {
      this.db := db;
    }

    method AddBook(data: Books.BookFields) returns (r: Result<nat, CrudError>)
      requires db.Valid()
      modifies db
      ensures Step(db.State(), r) == Books.AddBook(old(db.State()), data)
      ensures db.Valid()
    {
      if !data.HasRequired() {
        return Failure(Invalid);
      }
      var newBook := data.Load();
      var existing := Books.IsbnOwner(db.books, db.nextBookId, newBook.isbn);
      if existing.Some? {
        // IntegrityError: roll back and report the book that holds the isbn.
        return Failure(Conflict(existing.value));
      }
      var id := db.nextBookId;
      db.books := db.books[id := newBook];
      db.nextBookId := id + 1;
      r := Success(id);
    }

    method UpdateBook(bookId: nat, data: Books.BookFields) returns (r: Result<Option<nat>, CrudError>)
      requires db.Valid()
      modifies db
      ensures Step(db.State(), r) == Books.UpdateBook(old(db.State()), bookId, data)
      ensures db.Valid()
    {
      if bookId !in db.books {
        if !data.HasRequired() {
          return Failure(Invalid);
        }
        var newBook := data.Load();
        if Books.IsbnOwner(db.books, db.nextBookId, newBook.isbn).Some? {
          return Failure(Integrity);
        }
        var id := db.nextBookId;
        db.books := db.books[id := newBook];
        db.nextBookId := id + 1;
        return Success(Some(id));
      }
      var book := db.books[bookId];
      if data.title.Some? { book := book.(title := data.title.value); }
      if data.isbn.Some? { book := book.(isbn := data.isbn.value); }
      if data.author.Some? { book := book.(author := data.author.value); }
      if data.price.Some? { book := book.(price := data.price.value); }
      if data.stock.Some? { book := book.(stock := data.stock.value); }
      if Books.IsbnOwner(db.books - {bookId}, db.nextBookId, book.isbn).Some? {
        return Failure(Integrity);
      }
      db.books := db.books[bookId := book];
      r := Success(None);
    }

    method DeleteBook(bookId: nat) returns (r: Option<nat>)
      requires db.Valid()
      modifies db
      ensures Step(db.State(), r) == Books.DeleteBook(old(db.State()), bookId)
      ensures db.Valid()
    {
      if bookId in db.books {
        db.books := db.books - {bookId};
        return Some(bookId);
      }
      r := None;
    }
  }

  /** UserService. */
  class UserService {
    const db: Database

    constructor (db: Database)
      ensures this.db == db
    {
      this.db := db;
    }

    method AddUser(data: Users.UserFields) returns (r: Result<nat, CrudError>)
      requires db.Valid()
      modifies db
      ensures Step(db.State(), r) == Users.AddUser(old(db.State()), data)
      ensures db.Valid()
    {
      if !data.HasRequired() {
        return Failure(Invalid);
      }
      var newUser := data.Load();
      var existing := Users.EmailOwner(db.users, db.nextUserId, newUser.email);
      if existing.Some? {
        // IntegrityError: roll back and report the user that holds the email.
        return Failure(Conflict(existing.value));
      }
      var id := db.nextUserId;
      db.users := db.users[id := newUser];
      db.nextUserId := id + 1;
      r := Success(id);
    }

    method UpdateUser(userId: nat, data: Users.UserFields) returns (r: Result<Option<nat>, CrudError>)
      requires db.Valid()
      modifies db
      ensures Step(db.State(), r) == Users.UpdateUser(old(db.State()), userId, data)
      ensures db.Valid()
    {
      if userId !in db.users {
        if !data.HasRequired() {
          return Failure(Invalid);
        }
        var newUser := data.Load();
        if Users.EmailOwner(db.users, db.nextUserId, newUser.email).Some? {
          return Failure(Integrity);
        }
        var id := db.nextUserId;
        db.users := db.users[id := newUser];
        db.nextUserId := id + 1;
        return Success(Some(id));
      }
      var user := db.users[userId];
      if data.email.Some? { user := user.(email := data.email); }
      if data.firstName.Some? { user := user.(firstName := data.firstName.value); }
      if data.lastName.Some? { user := user.(lastName := data.lastName); }
      if data.contact.Some? { user := user.(contact := data.contact.value); }
      if Users.EmailOwner(db.users - {userId}, db.nextUserId, user.email).Some? {
        return Failure(Integrity);
      }
      db.users := db.users[userId := user];
      r := Success(None);
    }

    method DeleteUser(userId: nat) returns (r: Option<nat>)
      requires db.Valid()
      modifies db
      ensures Step(db.State(), r) == Users.DeleteUser(old(db.State()), userId)
      ensures db.Valid()
    {
      if userId in db.users {
        db.users := db.users - {userId};
        return Some(userId);
      }
      r := None;
    }
  }

  /** TransactionService, with the debt cap (MAX_ALLOWED_DUE) it is configured with. */
  class TransactionService {
    const db: Database
    const maxAllowedDue: int

    constructor (db: Database, maxAllowedDue: int)
      ensures this.db == db && this.maxAllowedDue == maxAllowedDue
    {
      this.db := db;
      this.maxAllowedDue := maxAllowedDue;
    }

    method AddTransaction(req: Ledger.RentRequest, now: Timestamp) returns (r: Result<nat, Ledger.LedgerError>)
      requires db.Valid()
      modifies db
      ensures Step(db.State(), r) == Ledger.Rent(old(db.State()), maxAllowedDue, req, now)
      ensures db.Valid()
    {
      // The member id is read from the request's book field.
      var memberId := req.book;
      var totalDue := Ledger.Due(db.State(), memberId);
      if totalDue > maxAllowedDue {
        return Failure(Ledger.Overdue);
      }
      if req.book !in db.books {
        return Failure(Ledger.BookMissing);
      }
      var book := db.books[req.book];
      if book.stock == 0 {
        return Failure(Ledger.OutOfStock);
      } else if book.stock < req.numCopies {
        return Failure(Ledger.StockShortage(book.stock));
      }
      book := book.(stock := book.stock - req.numCopies);
      var rent := req.numCopies * book.price;
      var transaction := NewTransaction(req.member, req.book, req.numCopies, rent, req.dateRented, req.dateReturn, now);
      var id := db.nextTransactionId;
      db.transactions := db.transactions[id := transaction];
      db.nextTransactionId := id + 1;
      db.books := db.books[req.book := book];
      r := Success(id);
    }

    method UpdateTransaction(transactionId: nat, now: Timestamp) returns (r: Outcome<Ledger.LedgerError>)
      requires db.Valid()
      modifies db
      ensures Step(db.State(), r) == Ledger.Return(old(db.State()), transactionId, now)
      ensures db.Valid()
    {
      if transactionId !in db.transactions {
        return Fail(Ledger.NoResultFound);
      }
      var transaction := db.transactions[transactionId];
      if transaction.book !in db.books {
        return Fail(Ledger.BookMissing);
      }
      var book := db.books[transaction.book];
      book := book.(stock := book.stock + transaction.numCopies);
      transaction := transaction.(dateReturn := Some(now));
      db.transactions := db.transactions[transactionId := transaction];
      db.books := db.books[transaction.book := book];
      r := Pass;
    }
  }
}
