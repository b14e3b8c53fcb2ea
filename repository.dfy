/**
 * The user store behind the repository. The table is a sequence of records in
 * store order; each repository operation is a method of `UsersRepository`, and
 * the functions below say what the queries and writes do to a table.
 */
module Repository {
  import opened Wrappers
  import opened Models

  /** No two records share an id: the store's primary key. */
  ghost predicate DistinctIds(rows: seq<User>) {
    forall i, j :: 0 <= i < j < |rows| ==> rows[i].id != rows[j].id
  }

  /** No two records share a username: the service's business invariant. */
  ghost predicate UniqueUsernames(rows: seq<User>) {
    forall i, j :: 0 <= i < j < |rows| ==> rows[i].username != rows[j].username
  }

  /** Whether some record carries `username` (the `AnyAsync` query). */
  function AnyWithUsername(rows: seq<User>, username: string): (b: bool)
    ensures b <==> exists i :: 0 <= i < |rows| && rows[i].username == username
  {
    if rows == [] then false
    else if rows[0].username == username then true
    else
      var rest := AnyWithUsername(rows[1..], username);
      assert forall i :: 0 < i < |rows| ==> rows[i] == rows[1..][i - 1];
      rest
  }

  /** The first record whose id is `id`, or `None` (the `FirstOrDefaultAsync` query). */
  function FirstWithId(rows: seq<User>, id: int): (r: Option<User>)
    ensures r.None? <==> forall i :: 0 <= i < |rows| ==> rows[i].id != id
    ensures r.Some? ==> r.value in rows && r.value.id == id
  {
    if rows == [] then None
    else if rows[0].id == id then Some(rows[0])
    else
      var rest := FirstWithId(rows[1..], id);
      assert forall i :: 0 < i < |rows| ==> rows[i] == rows[1..][i - 1];
      rest
  }

  /** The table without the record(s) keyed `id`, others kept in order (`Remove` then save). */
  function RemoveById(rows: seq<User>, id: int): (r: seq<User>)
    ensures forall u :: u in r <==> u in rows && u.id != id
    ensures |r| <= |rows|
  {
    if rows == [] then []
    else if rows[0].id == id then RemoveById(rows[1..], id)
    else [rows[0]] + RemoveById(rows[1..], id)
  }

  /** The table with the record keyed `user.id` written back as `user` (save of a tracked edit). */
  function ReplaceById(rows: seq<User>, user: User): (r: seq<User>)
    ensures |r| == |rows|
    ensures forall i :: 0 <= i < |rows| ==> r[i].id == rows[i].id
    ensures forall i :: 0 <= i < |rows| && rows[i].id != user.id ==> r[i] == rows[i]
    ensures forall i :: 0 <= i < |rows| && rows[i].id == user.id ==> r[i] == user
  {
    if rows == [] then []
    else
      var rest := ReplaceById(rows[1..], user);
      assert forall i :: 0 < i < |rows| ==> rows[i] == rows[1..][i - 1];
      [if rows[0].id == user.id then user else rows[0]] + rest
  }

  /** An upper bound of the ids in use (0 for an empty table). */
  function MaxId(rows: seq<User>): (m: int)
    ensures m >= 0
    ensures forall i :: 0 <= i < |rows| ==> rows[i].id <= m
  {
    if rows == [] then 0
    else
      var rest := MaxId(rows[1..]);
      assert forall i :: 0 < i < |rows| ==> rows[i] == rows[1..][i - 1];
      if rows[0].id > rest then rows[0].id else rest
  }

  /** The id the store assigns to a new record: positive and not in use. */
  function FreshId(rows: seq<User>): (id: int)
    ensures id > 0
    ensures FirstWithId(rows, id).None?
  {
    MaxId(rows) + 1
  }

  /** With distinct ids, removing a stored record's id removes that record and nothing else. */
  lemma {:induction false} RemoveByIdExact(rows: seq<User>, u: User)
    requires DistinctIds(rows) && u in rows
    ensures multiset(RemoveById(rows, u.id)) == multiset(rows) - multiset{u}
    ensures |RemoveById(rows, u.id)| == |rows| - 1
  {
    DistinctIdsTail(rows);
    assert rows == [rows[0]] + rows[1..];
    if rows[0] == u {
      assert forall i :: 0 <= i < |rows[1..]| ==> rows[1..][i] in rows[1..];
      RemoveByIdNoop(rows[1..], u.id);
    } else {
      assert u in rows[1..];
      RemoveByIdExact(rows[1..], u);
    }
  }

  /** Removing an id that is not in use leaves the table as it is. */
  lemma {:induction false} RemoveByIdNoop(rows: seq<User>, id: int)
    requires forall i :: 0 <= i < |rows| ==> rows[i].id != id
    ensures RemoveById(rows, id) == rows
  {
    if rows != [] {
      assert rows[0].id != id;
      RemoveByIdNoop(rows[1..], id);
      assert rows == [rows[0]] + rows[1..];
    }
  }

  /** The tail of a table with distinct ids has distinct ids, none equal to the head's. */
  lemma DistinctIdsTail(rows: seq<User>)
    requires DistinctIds(rows) && rows != []
    ensures DistinctIds(rows[1..])
    ensures forall u :: u in rows[1..] ==> u.id != rows[0].id
  {
  }

  /** The tail of a table with distinct usernames has distinct usernames, none equal to the head's. */
  lemma UniqueUsernamesTail(rows: seq<User>)
    requires UniqueUsernames(rows) && rows != []
    ensures UniqueUsernames(rows[1..])
    ensures forall u :: u in rows[1..] ==> u.username != rows[0].username
  {
  }

  /** Removal keeps a subsequence of the records, so their ids stay distinct. */
  lemma {:induction false} RemoveByIdKeepsDistinctIds(rows: seq<User>, id: int)
    requires DistinctIds(rows)
    ensures DistinctIds(RemoveById(rows, id))
  {
    if rows != [] {
      DistinctIdsTail(rows);
      RemoveByIdKeepsDistinctIds(rows[1..], id);
      var tail := RemoveById(rows[1..], id);
      if rows[0].id != id {
        var r := [rows[0]] + tail;
        assert forall k :: 0 < k < |r| ==> r[k] == tail[k - 1];
        assert forall k :: 0 < k < |r| ==> r[k] in rows[1..];
      }
    }
  }

  /** Removal keeps a subsequence of the records, so their usernames stay distinct. */
  lemma {:induction false} RemoveByIdKeepsUniqueUsernames(rows: seq<User>, id: int)
    requires UniqueUsernames(rows)
    ensures UniqueUsernames(RemoveById(rows, id))
  {
    if rows != [] {
      UniqueUsernamesTail(rows);
      RemoveByIdKeepsUniqueUsernames(rows[1..], id);
      var tail := RemoveById(rows[1..], id);
      if rows[0].id != id {
        var r := [rows[0]] + tail;
        assert forall k :: 0 < k < |r| ==> r[k] == tail[k - 1];
        assert forall k :: 0 < k < |r| ==> r[k] in rows[1..];
      }
    }
  }

  /** Writing back a record under a username nobody holds keeps usernames distinct. */
  lemma ReplaceByIdPreservesUnique(rows: seq<User>, user: User)
    requires DistinctIds(rows) && UniqueUsernames(rows)
    requires !AnyWithUsername(rows, user.username)
    ensures DistinctIds(ReplaceById(rows, user))
    ensures UniqueUsernames(ReplaceById(rows, user))
  {
  }

  /** Appending a record under a fresh id and a username nobody holds keeps both keys distinct. */
  lemma AppendPreservesUnique(rows: seq<User>, user: User)
    requires DistinctIds(rows) && UniqueUsernames(rows)
    requires FirstWithId(rows, user.id).None? && !AnyWithUsername(rows, user.username)
    ensures DistinctIds(rows + [user]) && UniqueUsernames(rows + [user])
  {
  }

  /** A write the repository performed, recorded for stating what each service call writes. */
  datatype Write = Added(user: User) | Saved(user: User) | Removed(user: User)

  /**
   * The repository over the `Users` table. `users` is the table in store order;
   * `writes` records, as a ghost log, each write the repository was asked to do.
   */
  class UsersRepository {
    var users: seq<User>
    ghost var writes: seq<Write>

    ghost predicate Valid()
      reads this
    {
      DistinctIds(users)
    }

    constructor ()
      ensures Valid() && users == [] && writes == []
    {
      users := [];
      writes := [];
    }

    /** Adds a new record; the store assigns it the next id, one not in use. */
    method CreateUser(username: string) returns (created: User)
      requires Valid()
      modifies this
      ensures Valid()
      ensures created.username == username && FirstWithId(old(users), created.id).None?
      ensures created.id == FreshId(old(users))
      ensures users == old(users) + [created]
      ensures writes == old(writes) + [Added(created)]
    {
      created := User(FreshId(users), username);
      users := users + [created];
      writes := writes + [Added(created)];
    }

    /** Every stored record, in store order, as an untracked copy. */
    method GetAllUsers() returns (all: seq<User>)
      ensures |all| == |users|
      ensures forall i :: 0 <= i < |users| ==> all[i] == users[i]
    {
      all := users;
    }

    /** The stored record with id `userId`, or `None` when there is none. */
    method GetUserWithTracking(userId: int) returns (user: Option<User>)
      requires Valid()
      ensures user.None? <==> forall i :: 0 <= i < |users| ==> users[i].id != userId
      ensures user.Some? ==> user.value in users && user.value.id == userId
    {
      user := FirstWithId(users, userId);
    }

    /** Commits an edited copy of a fetched record: the record with its id becomes `user`. */
    method UpdateContext(user: User)
      requires Valid() && FirstWithId(users, user.id).Some?
      modifies this
      ensures Valid()
      ensures users == ReplaceById(old(users), user)
      ensures writes == old(writes) + [Saved(user)]
    {
      users := ReplaceById(users, user);
      writes := writes + [Saved(user)];
    }

    /** Removes a fetched record; every other record stays. */
    method DeleteUser(user: User)
      requires Valid() && user in users
      modifies this
      ensures Valid()
      ensures multiset(users) == multiset(old(users)) - multiset{user}
      ensures users == RemoveById(old(users), user.id)
      ensures writes == old(writes) + [Removed(user)]
    {
      RemoveByIdExact(users, user);
      RemoveByIdKeepsDistinctIds(users, user.id);
      users := RemoveById(users, user.id);
      writes := writes + [Removed(user)];
    }

    /** Whether some stored record has exactly this username. */
    method DoesUsernameExist(username: string) returns (exists_: bool)
      ensures exists_ <==> exists i :: 0 <= i < |users| && users[i].username == username
    {
      exists_ := AnyWithUsername(users, username);
    }
  }
}
