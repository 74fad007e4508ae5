/**
 * BookService (api/services.py lines 14-105): catalogue queries and the
 * create, partial-update-or-create and delete operations on the books table.
 */
module Books {
  import opened Wrappers
  import opened Models
  import opened Db
  import Tables
  import Ranking

  /** The fields of a request body; a field the body leaves out is None. */
  datatype BookFields = BookFields(
    title: Option<string>,
    isbn: Option<string>,
    author: Option<string>,
    price: Option<int>,
    stock: Option<int>)
  {
    /** Whether the body carries the field of the named column. */
    predicate Present(column: string) {
      if column == "title" then title.Some?
      else if column == "isbn" then isbn.Some?
      else if column == "author" then author.Some?
      else if column == "price" then price.Some?
      else if column == "stock" then stock.Some?
      else false
    }

    /** The schema load that builds a new Book needs these columns. */
    predicate HasRequired(): (r: bool)
      ensures r <==> forall c :: c in BookColumns && c.Required() ==> Present(c.name)
    {
      title.Some? && isbn.Some? && author.Some?
    }

    /** The Book the schema load builds: Book(**data). */
    function Load(): (b: Book)
      requires HasRequired()
      ensures b.title == title.value && b.isbn == isbn.value && b.author == author.value
      ensures stock.Some? && stock.value != 0 ==> b.stock == stock.value
      ensures stock.None? || stock.value == 0 ==> b.stock == DEFAULT_STOCK
      ensures price.Some? && price.value != 0 ==> b.price == price.value
      ensures price.None? || price.value == 0 ==> b.price == DEFAULT_PRICE
    {
      NewBook(title.value, isbn.value, author.value, stock, price)
    }
  }

  /** A request argument Python treats as true: present and not the empty string. */
  predicate Truthy(o: Option<string>)
  {
    o.Some? && o.value != ""
  }

  /** text LIKE '%pattern%': pattern occurs in text as a contiguous block. */
  predicate Contains(text: string, pattern: string): (r: bool)
    decreases |text|
    ensures r <==> exists i :: 0 <= i <= |text| && pattern <= text[i..]
  {
    if pattern <= text then
      assert pattern <= text[0..];
      true
    else if text == [] then
      false
    else
      var r := Contains(text[1..], pattern);
      assert forall i :: 1 <= i <= |text| ==> text[i..] == text[1..][i - 1..];
      assert r ==> exists i :: 0 <= i <= |text| && pattern <= text[i..] by {
        if r {
          var j :| 0 <= j <= |text[1..]| && pattern <= text[1..][j..];
          assert text[j + 1..] == text[1..][j..];
        }
      }
      r
  }

  /** The id of the book that holds an isbn. */
  function IsbnOwner(books: map<nat, Book>, n: nat, isbn: string): (r: Option<nat>)
    ensures r.Some? ==> r.value < n && r.value in books && books[r.value].isbn == isbn
    ensures r.None? ==> forall id :: id < n && id in books ==> books[id].isbn != isbn
  {
    Tables.FindBelow(books, n, (b: Book) => b.isbn == isbn)
  }

  /** Writes the fields present in data over the book, one assignment per field. */
  function Patch(b: Book, data: BookFields): (r: Book)
    ensures data.title.Some? ==> r.title == data.title.value
    ensures data.title.None? ==> r.title == b.title
    ensures data.isbn.Some? ==> r.isbn == data.isbn.value
    ensures data.isbn.None? ==> r.isbn == b.isbn
    ensures data.author.Some? ==> r.author == data.author.value
    ensures data.author.None? ==> r.author == b.author
    ensures data.price.Some? ==> r.price == data.price.value
    ensures data.price.None? ==> r.price == b.price
    ensures data.stock.Some? ==> r.stock == data.stock.value
    ensures data.stock.None? ==> r.stock == b.stock
  {
    var b1 := if data.title.Some? then b.(title := data.title.value) else b;
    var b2 := if data.isbn.Some? then b1.(isbn := data.isbn.value) else b1;
    var b3 := if data.author.Some? then b2.(author := data.author.value) else b2;
    var b4 := if data.price.Some? then b3.(price := data.price.value) else b3;
    if data.stock.Some? then b4.(stock := data.stock.value) else b4
  }

  /** Applying the same update twice changes nothing more. */
  lemma PatchIdempotent(b: Book, data: BookFields)
    ensures Patch(Patch(b, data), data) == Patch(b, data)
  {
  }

  /** Unlike the constructor, an update stores a zero stock or price as given. */
  lemma PatchKeepsZero(b: Book, data: BookFields)
    requires data.stock == Some(0) && data.price == Some(0)
    ensures Patch(b, data).stock == 0 && Patch(b, data).price == 0
    ensures data.HasRequired() ==> data.Load().stock == DEFAULT_STOCK && data.Load().price == DEFAULT_PRICE
  {
  }

  /** Stores a book under the next free id. */
  function Insert(s: Snapshot, b: Book): (r: Step<Result<nat, CrudError>>)
    requires Valid(s)
    requires forall id :: id in s.books ==> s.books[id].isbn != b.isbn
    ensures Valid(r.store) && r.result.Success?
    ensures r.result.value !in s.books
    ensures r.store.books == s.books[r.result.value := b]
    ensures r.store.users == s.users && r.store.transactions == s.transactions
  {
    var id := s.nextBookId;
    Step(s.(books := s.books[id := b], nextBookId := id + 1), Success(id))
  }

  /**
   * add_book: insert the loaded book; when its isbn is taken the insert is
   * rolled back and the error names the book that holds the isbn.
   */
  function AddBook(s: Snapshot, data: BookFields): (r: Step<Result<nat, CrudError>>)
    requires Valid(s)
    ensures Valid(r.store)
    ensures r.result.Failure? ==> r.store == s
    ensures r.result == Failure(Invalid) <==> !data.HasRequired()
    ensures r.result.Success? <==>
              data.HasRequired() && forall id :: id in s.books ==> s.books[id].isbn != data.isbn.value
    ensures r.result.Failure? ==> r.result.error.Invalid? || r.result.error.Conflict?
    ensures r.result.Failure? && r.result.error.Conflict? ==>
              && data.HasRequired()
              && r.result.error.existing in s.books
              && s.books[r.result.error.existing].isbn == data.isbn.value
              && forall id :: id in s.books && s.books[id].isbn == data.isbn.value ==> id == r.result.error.existing
    ensures r.result.Success? ==>
              && r.result.value !in s.books
              && r.store.books == s.books[r.result.value := data.Load()]
              && r.store.users == s.users && r.store.transactions == s.transactions
  {
    if !data.HasRequired() then Step(s, Failure(Invalid))
    else match IsbnOwner(s.books, s.nextBookId, data.isbn.value)
      case Some(existing) => Step(s, Failure(Conflict(existing)))
      case None => Insert(s, data.Load())
  }

  /**
   * update_book: an existing book gets the fields present in data and
   * nothing is returned; for a missing id a new book is loaded from data
   * and stored under a fresh id, which is returned. A commit that breaks
   * the isbn constraint changes nothing.
   */
  function UpdateBook(s: Snapshot, id: nat, data: BookFields): (r: Step<Result<Option<nat>, CrudError>>)
    requires Valid(s)
    ensures Valid(r.store)
    ensures r.result.Failure? ==> r.store == s
    ensures id in s.books ==>
              (r.result.Success? <==>
                 forall other :: other in s.books && other != id ==> s.books[other].isbn != Patch(s.books[id], data).isbn)
    ensures id in s.books && r.result.Failure? ==> r.result.error == Integrity
    ensures id in s.books && r.result.Success? ==>
              && r.result.value.None?
              && r.store.books == s.books[id := Patch(s.books[id], data)]
              && r.store.users == s.users && r.store.transactions == s.transactions
    ensures id !in s.books ==> (r.result == Failure(Invalid) <==> !data.HasRequired())
    ensures id !in s.books ==>
              (r.result.Success? <==>
                 data.HasRequired() && forall other :: other in s.books ==> s.books[other].isbn != data.isbn.value)
    ensures id !in s.books && r.result.Failure? ==> r.result.error == Invalid || r.result.error == Integrity
    ensures id !in s.books && r.result.Success? ==>
              && r.result.value.Some?
              && r.result.value.value !in s.books
              && r.store.books == s.books[r.result.value.value := data.Load()]
              && r.store.users == s.users && r.store.transactions == s.transactions
  {
    if id !in s.books then
      if !data.HasRequired() then Step(s, Failure(Invalid))
      else if IsbnOwner(s.books, s.nextBookId, data.isbn.value).Some? then Step(s, Failure(Integrity))
      else
        var ins := Insert(s, data.Load());
        Step(ins.store, Success(Some(ins.result.value)))
    else
      var patched := Patch(s.books[id], data);
      if IsbnOwner(s.books - {id}, s.nextBookId, patched.isbn).Some? then Step(s, Failure(Integrity))
      else
        assert forall other :: other in s.books && other != id ==> other in s.books - {id};
        Step(s.(books := s.books[id := patched]), Success(None))
  }

  /** delete_book: removes the book with that id and returns the id, or returns None when there is none. */
  function DeleteBook(s: Snapshot, id: nat): (r: Step<Option<nat>>)
    requires Valid(s)
    ensures Valid(r.store)
    ensures r.result.Some? <==> id in s.books
    ensures r.result.Some? ==>
              && r.result.value == id
              && r.store.books == s.books - {id}
              && r.store.users == s.users && r.store.transactions == s.transactions
    ensures r.result.None? ==> r.store == s
  {
    if id in s.books then Step(s.(books := s.books - {id}), Some(id))
    else Step(s, None)
  }

  /**
   * search_book: books whose title contains the title argument and whose
   * author contains the author argument; an argument that is absent or
   * empty does not filter. With neither argument the source fails (its
   * result variable is never bound), modelled as None.
   */
  function SearchBooks(s: Snapshot, title: Option<string>, author: Option<string>): (r: Option<seq<nat>>)
    requires Valid(s)
    ensures r.None? <==> !Truthy(title) && !Truthy(author)
    ensures r.Some? ==>
              forall id :: id in r.value <==>
                && id in s.books
                && (Truthy(title) ==> Contains(s.books[id].title, title.value))
                && (Truthy(author) ==> Contains(s.books[id].author, author.value))
    ensures r.Some? ==> Ranking.Distinct(r.value)
  {
    if Truthy(title) && Truthy(author) then
      var t, a := title.value, author.value;
      Some(Tables.SelectBelow(s.books, s.nextBookId, (b: Book) => Contains(b.title, t) && Contains(b.author, a)))
    else if Truthy(title) then
      var t := title.value;
      Some(Tables.SelectBelow(s.books, s.nextBookId, (b: Book) => Contains(b.title, t)))
    else if Truthy(author) then
      var a := author.value;
      Some(Tables.SelectBelow(s.books, s.nextBookId, (b: Book) => Contains(b.author, a)))
    else None
  }

  /** COUNT(transactions.book) for one book: how many rentals, returned or not, name it. */
  function RentalCount(s: Snapshot, bookId: nat): (c: int)
    ensures c >= 0
    ensures (forall id :: id in s.transactions ==> s.transactions[id].book != bookId) ==> c == 0
  {
    Tables.SumBelowSign(s.transactions, s.nextTransactionId, (t: Transaction) => if t.book == bookId then 1 else 0);
    Tables.SumBelow(s.transactions, s.nextTransactionId, (t: Transaction) => if t.book == bookId then 1 else 0)
  }

  /**
   * get_popular_books: books by non-increasing number of rentals, at most
   * `limit` of them (every book when limit is None); a book left out is
   * rented no more often than any book listed.
   */
  function PopularBooks(s: Snapshot, limit: Option<nat>): (r: seq<nat>)
    requires Valid(s)
    ensures forall id :: id in r ==> id in s.books
    ensures Ranking.Distinct(r)
    ensures limit.Some? ==> |r| <= limit.value
    ensures forall id :: id in s.books ==> id in r || (limit.Some? && |r| == limit.value)
    ensures forall i, j :: 0 <= i < j < |r| ==> RentalCount(s, r[i]) >= RentalCount(s, r[j])
    ensures forall x, y :: x in s.books && x !in r && y in r ==> RentalCount(s, y) >= RentalCount(s, x)
  {
    RankTable(s.books, s.nextBookId, (id: nat) => RentalCount(s, id), limit)
  }

  /** The listing requests of get_books. */
  datatype BookQuery = Popular(limit: Option<nat>) | Search(title: Option<string>, author: Option<string>) | Every

  /** get_books: dispatches to the popular ranking, the search, or the whole table. */
  function GetBooks(s: Snapshot, q: BookQuery): (r: Option<seq<nat>>)
    requires Valid(s)
    ensures q.Every? ==> r.Some? && Ranking.Distinct(r.value) && forall id :: id in r.value <==> id in s.books
    ensures q.Popular? ==> r == Some(PopularBooks(s, q.limit))
    ensures q.Search? ==> r == SearchBooks(s, q.title, q.author)
  {
    match q
    case Popular(limit) => Some(PopularBooks(s, limit))
    case Search(title, author) => SearchBooks(s, title, author)
    case Every => Some(AllIds(s.books, s.nextBookId))
  }
}
