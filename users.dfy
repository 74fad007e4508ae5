/**
 * UserService (api/services.py lines 108-174): the member listing and
 * ranking, and the create, partial-update-or-create and delete operations
 * on the users table.
 */
module Users {
  import opened Wrappers
  import opened Models
  import opened Db
  import Tables
  import Ranking

  /** The fields of a request body; a field the body leaves out is None. */
  datatype UserFields = UserFields(
    email: Option<string>,
    firstName: Option<string>,
    lastName: Option<string>,
    contact: Option<string>)
  {
    /** Whether the body carries the field of the named column. */
    predicate Present(column: string) {
      if column == "email" then email.Some?
      else if column == "first_name" then firstName.Some?
      else if column == "last_name" then lastName.Some?
      else if column == "contact" then contact.Some?
      else false
    }

    /** The schema load that builds a new User needs these columns. */
    predicate HasRequired(): (r: bool)
      ensures r <==> forall c :: c in UserColumns && c.Required() ==> Present(c.name)
    {
      firstName.Some? && contact.Some?
    }

    /** The User the schema load builds: User(**data). */
    function Load(): (u: User)
      requires HasRequired()
      ensures u.firstName == firstName.value && u.contact == contact.value
      ensures u.email == email && u.lastName == lastName
    {
      NewUser(firstName.value, contact.value, email, lastName)
    }
  }

  /** The id of the user that holds a present email; an absent email is held by nobody. */
  function EmailOwner(users: map<nat, User>, n: nat, e: Option<string>): (r: Option<nat>)
    ensures e.None? ==> r.None?
    ensures r.Some? ==> r.value < n && r.value in users && users[r.value].email == e
    ensures r.None? && e.Some? ==> forall id :: id < n && id in users ==> users[id].email != e
  {
    if e.None? then None
    else Tables.FindBelow(users, n, (u: User) => u.email == e)
  }

  /** Writes the fields present in data over the user, one assignment per field. */
  function Patch(u: User, data: UserFields): (r: User)
    ensures data.email.Some? ==> r.email == data.email
    ensures data.email.None? ==> r.email == u.email
    ensures data.firstName.Some? ==> r.firstName == data.firstName.value
    ensures data.firstName.None? ==> r.firstName == u.firstName
    ensures data.lastName.Some? ==> r.lastName == data.lastName
    ensures data.lastName.None? ==> r.lastName == u.lastName
    ensures data.contact.Some? ==> r.contact == data.contact.value
    ensures data.contact.None? ==> r.contact == u.contact
  {
    var u1 := if data.email.Some? then u.(email := data.email) else u;
    var u2 := if data.firstName.Some? then u1.(firstName := data.firstName.value) else u1;
    var u3 := if data.lastName.Some? then u2.(lastName := data.lastName) else u2;
    if data.contact.Some? then u3.(contact := data.contact.value) else u3
  }

  /** Applying the same update twice changes nothing more. */
  lemma PatchIdempotent(u: User, data: UserFields)
    ensures Patch(Patch(u, data), data) == Patch(u, data)
  {
  }

  /** Stores a user under the next free id. */
  function Insert(s: Snapshot, u: User): (r: Step<Result<nat, CrudError>>)
    requires Valid(s)
    requires u.email.Some? ==> forall id :: id in s.users ==> s.users[id].email != u.email
    ensures Valid(r.store) && r.result.Success?
    ensures r.result.value !in s.users
    ensures r.store.users == s.users[r.result.value := u]
    ensures r.store.books == s.books && r.store.transactions == s.transactions
  {
    var id := s.nextUserId;
    Step(s.(users := s.users[id := u], nextUserId := id + 1), Success(id))
  }

  /** No user other than `self` has a clashing email. */
  ghost predicate EmailFree(users: map<nat, User>, email: Option<string>, self: Option<nat>)
  {
    email.Some? ==> forall id :: id in users && Some(id) != self ==> users[id].email != email
  }

  /**
   * add_user: insert the loaded user; when its email is taken the insert
   * is rolled back and the error names the user that holds the email.
   * Absent emails never clash.
   */
  function AddUser(s: Snapshot, data: UserFields): (r: Step<Result<nat, CrudError>>)
    requires Valid(s)
    ensures Valid(r.store)
    ensures r.result.Failure? ==> r.store == s
    ensures r.result == Failure(Invalid) <==> !data.HasRequired()
    ensures r.result.Success? <==> data.HasRequired() && EmailFree(s.users, data.email, None)
    ensures r.result.Failure? ==> r.result.error.Invalid? || r.result.error.Conflict?
    ensures r.result.Failure? && r.result.error.Conflict? ==>
              && data.HasRequired() && data.email.Some?
              && r.result.error.existing in s.users
              && s.users[r.result.error.existing].email == data.email
              && forall id :: id in s.users && s.users[id].email == data.email ==> id == r.result.error.existing
    ensures r.result.Success? ==>
              && r.result.value !in s.users
              && r.store.users == s.users[r.result.value := data.Load()]
              && r.store.books == s.books && r.store.transactions == s.transactions
  {
    if !data.HasRequired() then Step(s, Failure(Invalid))
    else match EmailOwner(s.users, s.nextUserId, data.email)
      case Some(existing) => Step(s, Failure(Conflict(existing)))
      case None => Insert(s, data.Load())
  }

  /**
   * update_user: an existing user gets the fields present in data and
   * nothing is returned; for a missing id a new user is loaded from data
   * and stored under a fresh id, which is returned. A commit that breaks
   * the email constraint changes nothing.
   */
  function UpdateUser(s: Snapshot, id: nat, data: UserFields): (r: Step<Result<Option<nat>, CrudError>>)
    requires Valid(s)
    ensures Valid(r.store)
    ensures r.result.Failure? ==> r.store == s
    ensures id in s.users ==> (r.result.Success? <==> EmailFree(s.users, Patch(s.users[id], data).email, Some(id)))
    ensures id in s.users && r.result.Failure? ==> r.result.error == Integrity
    ensures id in s.users && r.result.Success? ==>
              && r.result.value.None?
              && r.store.users == s.users[id := Patch(s.users[id], data)]
              && r.store.books == s.books && r.store.transactions == s.transactions
    ensures id !in s.users ==> (r.result == Failure(Invalid) <==> !data.HasRequired())
    ensures id !in s.users ==> (r.result.Success? <==> data.HasRequired() && EmailFree(s.users, data.email, None))
    ensures id !in s.users && r.result.Failure? ==> r.result.error == Invalid || r.result.error == Integrity
    ensures id !in s.users && r.result.Success? ==>
              && r.result.value.Some?
              && r.result.value.value !in s.users
              && r.store.users == s.users[r.result.value.value := data.Load()]
              && r.store.books == s.books && r.store.transactions == s.transactions
  {
    if id !in s.users then
      if !data.HasRequired() then Step(s, Failure(Invalid))
      else if EmailOwner(s.users, s.nextUserId, data.email).Some? then Step(s, Failure(Integrity))
      else
        var ins := Insert(s, data.Load());
        Step(ins.store, Success(Some(ins.result.value)))
    else
      var patched := Patch(s.users[id], data);
      if EmailOwner(s.users - {id}, s.nextUserId, patched.email).Some? then Step(s, Failure(Integrity))
      else
        assert forall other :: other in s.users && other != id ==> other in s.users - {id};
        Step(s.(users := s.users[id := patched]), Success(None))
  }

  /** delete_user: removes the user with that id and returns the id, or returns None when there is none. */
  function DeleteUser(s: Snapshot, id: nat): (r: Step<Option<nat>>)
    requires Valid(s)
    ensures Valid(r.store)
    ensures r.result.Some? <==> id in s.users
    ensures r.result.Some? ==>
              && r.result.value == id
              && r.store.users == s.users - {id}
              && r.store.books == s.books && r.store.transactions == s.transactions
    ensures r.result.None? ==> r.store == s
  {
    if id in s.users then Step(s.(users := s.users - {id}), Some(id))
    else Step(s, None)
  }

  /** SUM(transactions.rent) for one member, over every rental, returned or not. */
  function Paid(s: Snapshot, userId: nat): (p: int)
    ensures (forall id :: id in s.transactions && s.transactions[id].member == userId ==> s.transactions[id].rent >= 0) ==> p >= 0
    ensures (forall id :: id in s.transactions ==> s.transactions[id].member != userId) ==> p == 0
  {
    Tables.SumBelowSign(s.transactions, s.nextTransactionId, (t: Transaction) => if t.member == userId then t.rent else 0);
    Tables.SumBelow(s.transactions, s.nextTransactionId, (t: Transaction) => if t.member == userId then t.rent else 0)
  }

  /**
   * get_users: with highest_paying, members by non-increasing total rent,
   * at most `limit` of them (all when limit is None), a member left out
   * having paid no more than any member listed; otherwise every member,
   * the limit being ignored.
   */
  function GetUsers(s: Snapshot, highestPaying: bool, limit: Option<nat>): (r: seq<nat>)
    requires Valid(s)
    ensures forall id :: id in r ==> id in s.users
    ensures Ranking.Distinct(r)
    ensures !highestPaying ==> forall id :: id in s.users ==> id in r
    ensures highestPaying && limit.Some? ==> |r| <= limit.value
    ensures highestPaying ==> forall id :: id in s.users ==> id in r || (limit.Some? && |r| == limit.value)
    ensures highestPaying ==> forall i, j :: 0 <= i < j < |r| ==> Paid(s, r[i]) >= Paid(s, r[j])
    ensures highestPaying ==> forall x, y :: x in s.users && x !in r && y in r ==> Paid(s, y) >= Paid(s, x)
  {
    if highestPaying then
      RankTable(s.users, s.nextUserId, (id: nat) => Paid(s, id), limit)
    else AllIds(s.users, s.nextUserId)
  }
}
