/**
 * The relational store as three in-memory tables plus the id counters the
 * store allocates from, and the integrity constraints it enforces.
 */
module Db {
  import opened Wrappers
  import opened Models
  import Tables
  import Ranking

  /** The content of the database at one moment. */
  datatype Snapshot = Snapshot(
    books: map<nat, Book>,
    users: map<nat, User>,
    transactions: map<nat, Transaction>,
    nextBookId: nat,
    nextUserId: nat,
    nextTransactionId: nat)

  /** The database after an operation, and what the operation returned. */
  datatype Step<+T> = Step(store: Snapshot, result: T)

  /** Errors of the create and update operations. */
  datatype CrudError =
    | Invalid                 // schema load failed: a required field is missing
    | Conflict(existing: nat) // insert hit a unique key; the id of the record that holds it
    | Integrity               // update hit a unique key; the commit fails with nothing to report

  /** Every id of a table lies below the table's counter, so the counter is fresh. */
  ghost predicate IdsBelow<T>(m: map<nat, T>, n: nat)
  {
    forall id :: id in m ==> id < n
  }

  /** books.isbn is a unique column. */
  ghost predicate IsbnUnique(books: map<nat, Book>)
  {
    forall i, j :: i in books && j in books && books[i].isbn == books[j].isbn ==> i == j
  }

  /** users.email is a unique, nullable column: two users never share a present email. */
  ghost predicate EmailUnique(users: map<nat, User>)
  {
    forall i, j :: i in users && j in users && users[i].email.Some? && users[i].email == users[j].email ==> i == j
  }

  /** What the store guarantees between operations. */
  ghost predicate Valid(s: Snapshot)
    ensures Valid(s) ==> s.nextBookId !in s.books && s.nextUserId !in s.users && s.nextTransactionId !in s.transactions
  {
    && IdsBelow(s.books, s.nextBookId)
    && IdsBelow(s.users, s.nextUserId)
    && IdsBelow(s.transactions, s.nextTransactionId)
    && IsbnUnique(s.books)
    && EmailUnique(s.users)
  }

  /** The freshly created database. */
  const Empty: Snapshot := Snapshot(map[], map[], map[], 0, 0, 0)

  /** The ids of a table, in increasing order. */
  function AllIds<T>(m: map<nat, T>, n: nat): (r: seq<nat>)
    ensures forall id :: id in r <==> id < n && id in m
    ensures IdsBelow(m, n) ==> forall id :: id in r <==> id in m
    ensures forall i, j :: 0 <= i < j < |r| ==> r[i] < r[j]
  {
    Tables.SelectBelow(m, n, (_: T) => true)
  }

  /** Ranks a whole table by score: what the ORDER BY ... LIMIT queries return. */
  function RankTable<T>(m: map<nat, T>, n: nat, score: nat -> int, limit: Option<nat>): (r: seq<nat>)
    requires IdsBelow(m, n)
    ensures forall id :: id in r ==> id in m
    ensures Ranking.Distinct(r)
    ensures limit.Some? ==> |r| <= limit.value
    ensures forall id :: id in m ==> id in r || (limit.Some? && |r| == limit.value)
    ensures Ranking.NonIncreasing(r, score)
    ensures forall x, y :: x in m && x !in r && y in r ==> score(y) >= score(x)
  {
    var ids := AllIds(m, n);
    var r := Ranking.TopByScore(ids, score, limit);
    RankTableProps(m, ids, score, limit, r);
    r
  }

  /** The table-level facts of RankTable from the list-level contract of the top-k selection. */
  lemma RankTableProps<T>(m: map<nat, T>, ids: seq<nat>, score: nat -> int, limit: Option<nat>, r: seq<nat>)
    requires Ranking.Distinct(ids)
    requires forall id :: id in ids <==> id in m
    requires |r| == if limit.Some? && limit.value < |ids| then limit.value else |ids|
    requires multiset(r) <= multiset(ids)
    requires limit.None? || limit.value >= |ids| ==> multiset(r) == multiset(ids)
    requires forall x :: x in ids && x !in r ==> forall y :: y in r ==> score(y) >= score(x)
    ensures forall id :: id in r ==> id in m
    ensures forall id :: id in m ==> id in r || (limit.Some? && |r| == limit.value)
    ensures forall x, y :: x in m && x !in r && y in r ==> score(y) >= score(x)
  {
    forall id | id in r ensures id in m {
      assert id in multiset(r);
      assert id in multiset(ids);
    }
    forall id | id in m ensures id in r || (limit.Some? && |r| == limit.value) {
      assert id in ids;
      if limit.None? || limit.value >= |ids| {
        assert id in multiset(ids);
        assert id in multiset(r);
      }
    }
    forall x, y | x in m && x !in r && y in r ensures score(y) >= score(x) {
      assert x in ids;
    }
  }
}
