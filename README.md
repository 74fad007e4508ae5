# e-library rental ledger and tables, in Dafny

This project models the service layer of the e-library REST backend
(`api/services.py`) and the record shapes it works on (`api/models.py`).
The database is three in-memory tables (maps from id to record) for books,
users (members) and transactions (rentals). Each table has an id counter
the store allocates new ids from.

- `wrappers.dfy` (`Wrappers`): `Option`, `Result`, `Outcome`.
- `models.dfy` (`Models`): the `Book`, `User` and `Transaction` records and
  their constructors. A zero or absent stock becomes 1 and a zero or absent
  price becomes 30, because the constructor tests truthiness. A transaction
  built without a return date is open.
- `tables.dfy` (`Tables`): generic table queries: a sum over a table, find
  one record, select records in id order.
- `ranking.dfy` (`Ranking`): `ORDER BY score DESC LIMIT n` as a top-k
  selection.
- `db.dfy` (`Db`): the `Snapshot` of the three tables and the invariant
  `Valid`. It says every id lies below its counter, isbn is unique, and a
  present email is unique.
- `books.dfy`, `users.dfy`, `ledger.dfy` (`Books`, `Users`, `Ledger`): each
  service operation as a function from the snapshot before the call to
  the snapshot after it plus the returned value. Their contracts state the
  rules, and the lemmas relate several operations.
- `services.dfy` (`Services`): a `Database` class whose fields are the
  tables, and the classes `BookService`, `UserService` and
  `TransactionService`. Their methods update the tables step by step and
  are proved to end in the state, and return the value, that the matching
  function gives.

Rules kept exactly as the code has them:
- The overdue sum runs over the open transactions whose `member` equals the
  request's `book` value (`services.py:192`). The cap test is strict `>`.
- A stock of 0 gives `OutOfStock`. A stock below the request gives
  `StockShortage`, which carries the stock.
- The copy count is not checked for sign.
- A return does not check whether the rental is already returned, so a
  second return credits the copies again.
- A missing book, in a rental or in a return after the book was deleted,
  is the explicit error `BookMissing`. The code dereferences `None` there.
- A partial update that targets a missing id inserts a new record under a
  fresh id. That id is not necessarily the one requested.

Where the code and its evident intent disagree, the model follows the code:
- The stock checks at `services.py:204-207` evidently mean to keep stock at
  or above 0. With negative copy counts, a sequence of successful rentals and
  a return still drives it below 0
  (`Ledger.NegativeCopiesDriveStockNegative`).
- The names `member_id` and `member_occupied_books` (`services.py:192-196`)
  show that the debt is meant to be the requesting member's. The code reads
  that id from the book field (`Ledger.OverdueCheckReadsBookId`).

## Model

| member | source | states |
|---|---|---|
| `Models.NewUser` | api/models.py:21-25 | first name and contact are taken as given; email and last name are optional and absent unless supplied |
| `Models.NewBook` | api/models.py:57-68 | title, isbn and author as given; a stock or price that is absent or 0 is stored as the default 1 or 30, any other value as given, so a new book never has stock 0 |
| `Models.NewTransaction` | api/models.py:89-101 | fields as given; date_rented is the given date or else the storing time; date_return is kept, so a transaction built without one is open |
| `Db.Valid` | api/models.py:15-55 | the store invariant: ids are below their table's counter, isbn is unique among books, a present email is unique among users; so each counter is a fresh id |
| `Db.AllIds` | api/services.py:47-48 | `query.all()`: every id of the table exactly once, in increasing id order |
| `Tables.SumBelowUpdate` | api/services.py:199 | storing a record under an id replaces that id's term of a table sum by the new record's term |
| `Tables.FindBelow` | api/services.py:65 | a found id holds a record matching the filter; none found means no record matches |
| `Tables.SelectBelow` | api/services.py:28-34 | exactly the ids whose records match the filter, in increasing order, each once |
| `Ranking.TopByScore` | api/services.py:20-23 | result has min(limit, n) ids by non-increasing score, drawn from the input without repeats; every id left out scores no higher than any kept |
| `Db.RankTable` | api/services.py:18-24 | ranking a whole table lists only table ids, once each, at most `limit` of them and all of them unless the limit is reached, best first, and none left out beats one listed |
| `Books.BookFields.HasRequired` | api/models.py:54-58 | a body can create a book exactly when it carries every column declared neither nullable nor defaulted: title, isbn and author; price and stock may be absent |
| `Books.BookFields.Load` | api/serializers.py:24-26 | the schema load builds the Book with the given title, isbn and author, and the given stock and price when non-zero, the column defaults 1 and 30 otherwise |
| `Books.Contains` | api/services.py:28-34 | `LIKE '%pattern%'`: holds exactly when the pattern is a prefix of some suffix of the text |
| `Books.IsbnOwner` | api/services.py:65 | a returned id holds a book with that isbn; none returned means no book has it |
| `Books.RentalCount` | api/services.py:20-22 | number of transactions, returned or not, that name the book: never negative, 0 when none names it |
| `Books.Patch` | api/services.py:84-93 | each of title, isbn, author, price and stock is overwritten when present in the data and kept otherwise |
| `Books.PatchIdempotent` | api/services.py:84-93 | applying the same update twice gives the same book as applying it once |
| `Books.PatchKeepsZero` | api/services.py:90-93 | an update stores stock 0 and price 0 as given, while building a book from the same data gives 1 and 30 |
| `Books.AddBook` | api/services.py:56-71 | missing required field: Invalid; isbn already held: Conflict naming the one book holding it, tables unchanged; otherwise exactly one new book under a fresh id and nothing else changes |
| `Books.UpdateBook` | api/services.py:73-96 | existing id: fields in the data overwritten, returns nothing, fails without change only when the new isbn belongs to another book; missing id: a new book from the data under a fresh id, returned |
| `Books.DeleteBook` | api/services.py:98-105 | an existing id is removed and returned with nothing else changed; a missing id returns nothing and changes nothing |
| `Books.SearchBooks` | api/services.py:26-35 | exactly the books whose title contains the title argument and whose author contains the author argument, an empty or absent argument not filtering; fails, modelled as None, when both are empty or absent (the source's result variable is never bound) |
| `Books.PopularBooks` | api/services.py:18-24 | books ordered by non-increasing rental count, at most `limit`, all books when under the limit, no book left out rented more often than one listed |
| `Books.GetBooks` | api/services.py:37-50 | the popular request ranks, the search request searches, any other request lists every book once |
| `Users.UserFields.HasRequired` | api/models.py:15-19 | a body can create a user exactly when it carries every column declared neither nullable nor defaulted: first name and contact; email and last name may be absent |
| `Users.UserFields.Load` | api/serializers.py:39-41 | the schema load builds the User with the given first name and contact, and email and last name as given or absent |
| `Users.EmailOwner` | api/services.py:137 | an absent email is held by nobody; a returned id holds a user with that email; none returned means no user has it |
| `Users.Paid` | api/services.py:115-117 | sum of rent over every transaction of the member, returned or not: 0 when the member has none, not negative when those rents are not |
| `Users.Patch` | api/services.py:155-162 | each of email, first name, last name and contact is overwritten when present in the data and kept otherwise |
| `Users.PatchIdempotent` | api/services.py:155-162 | applying the same update twice gives the same user as applying it once |
| `Users.AddUser` | api/services.py:127-143 | missing first name or contact: Invalid; present email already held: Conflict naming the one holder, tables unchanged; otherwise exactly one new user under a fresh id |
| `Users.UpdateUser` | api/services.py:145-165 | existing id: fields in the data overwritten, returns nothing, fails without change only on an email held by another user; missing id: a new user from the data under a fresh id, returned |
| `Users.DeleteUser` | api/services.py:167-174 | an existing id is removed and returned with nothing else changed; a missing id returns nothing and changes nothing |
| `Users.GetUsers` | api/services.py:112-121 | highest paying: users by non-increasing summed rent, at most `limit`, none left out having paid more than one listed; otherwise every user, limit ignored |
| `Ledger.Due` | api/services.py:195-199 | sum of rent over the open transactions whose member is the given id: 0 when that member has no open transaction, not negative when those rents are not |
| `Ledger.Rent` | api/services.py:190-218 | Overdue exactly when the debt under the requested book id exceeds the cap; then BookMissing, OutOfStock at stock 0, StockShortage carrying the stock when 0 != stock < n; any failure changes nothing; success lowers that book's stock by n to a value at least 0 and adds one transaction with rent n * price, nothing else changing |
| `Ledger.Return` | api/services.py:220-234 | unknown id: NoResultFound, nothing changes; book gone: BookMissing, nothing changes; otherwise the book's stock rises by the rental's copy count and its return date becomes the clock value, whether or not it was already returned |
| `Ledger.RentChargesRenter` | api/services.py:208-216 | a successful rental adds n * price to the debt of the requesting member when the new rental is open, and changes no other member's debt |
| `Ledger.ReturnSettlesDue` | api/services.py:226-230 | a return takes the rental's rent off its member's debt when it was open; no other debt changes |
| `Ledger.RentKeepsHoldings` | api/services.py:203-216 | a successful open rental keeps shelf stock plus copies out on open rentals the same for every book |
| `Ledger.ReturnHoldings` | api/services.py:226-230 | returning an open rental keeps shelf plus out copies the same; returning a returned one adds its copies again |
| `Ledger.RentThenReturn` | api/services.py:190-234 | returning the rental just made succeeds, restores the books table exactly and closes the rental at the return time |
| `Ledger.ReturnTwiceCreditsTwice` | api/services.py:220-234 | returning the same rental twice succeeds both times and raises the stock by twice its copy count |
| `Ledger.OverdueCheckReadsBookId` | api/services.py:191-201 | a member over the cap can still rent when the book id's debt is low, and a member with no debt is refused when the book id's debt is high |
| `Ledger.DebtAtCapPasses` | api/services.py:199-201 | a debt equal to the cap passes the check; one unit less of cap refuses it |
| `Ledger.ShelfScenario` | api/services.py:203-230 | stock 5, price 30: renting 2 leaves 3 and charges 60, asking for 10 then reports a shortage of 3, returning the first rental restores 5 |
| `Ledger.NegativeCopiesDriveStockNegative` | api/services.py:193-229 | successful rentals of -3 and 4 copies and a return take a book from stock 1 to stock -3 |
| `Services.BookService.AddBook` | api/services.py:56-71 | keeps the store invariant and ends in the state and result of `Books.AddBook` |
| `Services.BookService.UpdateBook` | api/services.py:73-96 | overwrites the present fields one by one; ends in the state and result of `Books.UpdateBook` |
| `Services.BookService.DeleteBook` | api/services.py:98-105 | ends in the state and result of `Books.DeleteBook` |
| `Services.UserService.AddUser` | api/services.py:127-143 | keeps the store invariant and ends in the state and result of `Users.AddUser` |
| `Services.UserService.UpdateUser` | api/services.py:145-165 | overwrites the present fields one by one; ends in the state and result of `Users.UpdateUser` |
| `Services.UserService.DeleteUser` | api/services.py:167-174 | ends in the state and result of `Users.DeleteUser` |
| `Services.TransactionService.AddTransaction` | api/services.py:190-218 | checks debt, then stock, then writes book and transaction; ends in the state and result of `Ledger.Rent` under the service's cap |
| `Services.TransactionService.UpdateTransaction` | api/services.py:220-234 | credits the stock and stamps the return date; ends in the state and result of `Ledger.Return` |

## Left out

- `get_book`, `get_user`, `get_transaction` and `get_transactions` are plain
  lookups. In the model they are `id in s.books` and `s.books[id]` and the
  like, not separate members.
- `api/constants.py` and `api/messages.py` are not part of this model.
  `MAX_ALLOWED_DUE` is a parameter of `TransactionService`. The messages
  are the constructors of `Ledger.LedgerError`, and the shortage carries
  the stock it reports.
- `DEFAULT_RESULT_LIMIT` is unknown. `get_books` always passes the query's
  limit, which is None when the query has none, so the limit is an
  `Option<nat>` and None means no LIMIT.
- The conflict message's URL is modelled as the id of the existing record.
  URL generation is marshmallow's.
- The HTTP layer is not modelled: routing, status codes and schema
  validation, including field types in request bodies.
- Request fields sent as explicit nulls, and absent `member`, `book` or
  `num_copies` in a rental request, are not modelled. Ids are naturals and
  the copy count is the integer `int()` yields.
- Foreign keys are not checked when a rental is stored. Deleting a book
  that rentals refer to succeeds, as on a backend without foreign-key
  enforcement. Hence `BookMissing` on return.
- Column length limits (`String(13)` and so on) are not modelled, and neither is the range of the `Integer` columns: a stock or a rent (`num_copies * price`, `services.py:211`) outside the backend's integer range makes the commit fail, where the model's unbounded `int` stores it.
- SQL `LIKE` wildcards (`%`, `_`) inside the search text and case folding
  are not modelled. The search is plain substring containment.
- A member without rentals ranks with a paid total of 0. SQL gives NULL,
  which sorts first or last depending on the backend.
- Tie order in the rankings is left open by SQL. The contracts state only
  what every order has.
- The source rows come back in an unspecified order. The model lists ids in
  increasing order.
- Sessions and id sequences are not modelled. A failed insert does not
  advance the id counter, whereas a database sequence may.
- `datetime.now()` is a `now` parameter.
- Concurrency is out of scope, including the check-then-act race between
  two rentals of the same book. Every operation is one atomic update.
- The serialize/deserialize round trip of records is marshmallow's work and
  is not modelled.
