/**
 * The three record kinds of the library (api/models.py) and the defaults
 * their constructors apply. Ids are not part of a record: a record's id is
 * its key in the table that holds it (see module Db).
 */
module Models {
  import opened Wrappers

  /** A clock reading; the source's datetime.now() becomes a parameter. */
  type Timestamp = int

  /** Column default of Book.price. */
  const DEFAULT_PRICE: int := 30

  /** Column default of Book.stock. */
  const DEFAULT_STOCK: int := 1

  /** A column a table declares: whether it accepts NULL and whether it has a default. */
  datatype Column = Column(name: string, nullable: bool, hasDefault: bool)
  {
    /** A column that the schema load insists on: neither nullable nor defaulted. */
    predicate Required() {
      !nullable && !hasDefault
    }
  }

  /** The columns of the users table, its generated id aside. */
  const UserColumns: seq<Column> := [
    Column("email", true, false),
    Column("first_name", false, false),
    Column("last_name", true, false),
    Column("contact", false, false)]

  /** The columns of the books table, its generated id aside. */
  const BookColumns: seq<Column> := [
    Column("title", false, false),
    Column("isbn", false, false),
    Column("author", false, false),
    Column("price", true, true),
    Column("stock", true, true)]

  /** A member of the library. */
  datatype User = User(
    email: Option<string>,
    firstName: string,
    lastName: Option<string>,
    contact: string)

  /** A title the library lends out, with its per-copy price and copies on the shelf. */
  datatype Book = Book(
    title: string,
    isbn: string,
    author: string,
    price: int,
    stock: int)

  /** A rental of numCopies copies of a book by a member. */
  datatype Transaction = Transaction(
    member: nat,
    book: nat,
    numCopies: int,
    rent: int,
    dateRented: Timestamp,
    dateReturn: Option<Timestamp>)
  {
    /** Not yet returned: its copies are still out and its rent is still due. */
    predicate IsOpen() {
      dateReturn.None?
    }
  }

  /** User.__init__: first name and contact are required, email and last name default to None. */
  function NewUser(firstName: string, contact: string, email: Option<string>, lastName: Option<string>): (u: User)
    ensures u.firstName == firstName && u.contact == contact
    ensures u.email == email && u.lastName == lastName
  {
    User(email, firstName, lastName, contact)
  }

  /**
   * Book.__init__: stock and price are only assigned when truthy, so an
   * absent or zero value leaves the column default in place.
   */
  function NewBook(title: string, isbn: string, author: string, stock: Option<int>, price: Option<int>): (b: Book)
    ensures b.title == title && b.isbn == isbn && b.author == author
    ensures b.stock != 0 && b.price != 0
    ensures stock.Some? && stock.value != 0 ==> b.stock == stock.value
    ensures stock.None? || stock.value == 0 ==> b.stock == DEFAULT_STOCK
    ensures price.Some? && price.value != 0 ==> b.price == price.value
    ensures price.None? || price.value == 0 ==> b.price == DEFAULT_PRICE
  {
    var p := if price.Some? && price.value != 0 then price.value else DEFAULT_PRICE;
    var k := if stock.Some? && stock.value != 0 then stock.value else DEFAULT_STOCK;
    Book(title, isbn, author, p, k)
  }

  /**
   * Transaction.__init__: date_rented is taken when given and otherwise
   * filled in with the time the record is stored; date_return is kept as
   * given, so a transaction built without one is open.
   */
  function NewTransaction(member: nat, book: nat, numCopies: int, rent: int,
                          dateRented: Option<Timestamp>, dateReturn: Option<Timestamp>,
                          now: Timestamp): (t: Transaction)
    ensures t.member == member && t.book == book
    ensures t.numCopies == numCopies && t.rent == rent
    ensures t.dateReturn == dateReturn
    ensures dateRented.Some? ==> t.dateRented == dateRented.value
    ensures dateRented.None? ==> t.dateRented == now
  {
    var rented := if dateRented.Some? then dateRented.value else now;
    Transaction(member, book, numCopies, rent, rented, dateReturn)
  }
}
