/**
 * The service layer: the username-uniqueness rule and the translation of
 * stored records into responses. Each operation runs against the repository
 * one step at a time and returns a tagged outcome (or a boolean for delete)
 * instead of throwing for an expected failure.
 */
module Service {
  import opened Wrappers
  import opened Models
  import opened Repository
  import Decimal

  /** The `Select` that turns stored records into response entries, keeping order. */
  function ToUserResponses(users: seq<User>): (r: seq<UserResponse>)
    ensures |r| == |users|
    ensures forall i :: 0 <= i < |users| ==> r[i].userId == users[i].id && r[i].username == users[i].username
  {
    if users == [] then []
    else
      var rest := ToUserResponses(users[1..]);
      assert forall i :: 0 < i < |users| ==> users[i] == users[1..][i - 1];
      [UserResponse(users[0].id, users[0].username)] + rest
  }

  /** Renaming a user to the username it already has is reported as a conflict. */
  lemma OwnUsernameIsTaken(users: seq<User>, id: int)
    requires FirstWithId(users, id).Some?
    ensures AnyWithUsername(users, FirstWithId(users, id).value.username)
  {
  }

  class UsersService {
    const repo: UsersRepository

    constructor (repo: UsersRepository)
      ensures this.repo == repo
    {
      this.repo := repo;
    }

    /**
     * A taken username gives a conflict and writes nothing; otherwise exactly one
     * record is added under a fresh id, whose text is returned as `createdId`.
     */
    method CreateUser(username: string) returns (response: ServiceResponse)
      requires repo.Valid()
      modifies repo
      ensures repo.Valid() && response.WellFormed()
      ensures AnyWithUsername(old(repo.users), username) ==>
        && response == ConflictResponse(username)
        && repo.users == old(repo.users)
        && repo.writes == old(repo.writes)
      ensures !AnyWithUsername(old(repo.users), username) ==>
        && |repo.users| == |old(repo.users)| + 1
        && repo.users[..|old(repo.users)|] == old(repo.users)
        && var created := repo.users[|old(repo.users)|];
        && created.username == username
        && FirstWithId(old(repo.users), created.id).None?
        && created.id == FreshId(old(repo.users))
        && response == SuccessResponse(Some(Decimal.IntToString(created.id)))
        && repo.writes == old(repo.writes) + [Added(created)]
      ensures UniqueUsernames(old(repo.users)) ==> UniqueUsernames(repo.users)
    {
      var alreadyExists := repo.DoesUsernameExist(username);
      if alreadyExists {
        return ConflictResponse(username);
      }
      ghost var before := repo.users;
      var newUser := repo.CreateUser(username);
      assert repo.users[..|before|] == before;
      if UniqueUsernames(before) {
        AppendPreservesUnique(before, newUser);
      }
      response := SuccessResponse(Some(Decimal.IntToString(newUser.id)));
    }

    /** Every stored user as a response entry, in store order; empty, never absent, for an empty store. */
    method GetAllUsers() returns (userResponses: seq<UserResponse>)
      ensures |userResponses| == |repo.users|
      ensures forall i :: 0 <= i < |repo.users| ==>
        userResponses[i] == UserResponse(repo.users[i].id, repo.users[i].username)
    {
      var users := repo.GetAllUsers();
      userResponses := ToUserResponses(users);
    }

    /**
     * The username is checked before the id: a taken username is a conflict
     * whatever the id; then an unknown id is not-found; otherwise only the
     * username of the record with that id changes. Nothing is written on either error.
     */
    method UpdateUser(id: int, username: string) returns (response: ServiceResponse)
      requires repo.Valid()
      modifies repo
      ensures repo.Valid() && response.WellFormed()
      ensures AnyWithUsername(old(repo.users), username) ==>
        && response == ConflictResponse(username)
        && repo.users == old(repo.users)
        && repo.writes == old(repo.writes)
      ensures !AnyWithUsername(old(repo.users), username) && FirstWithId(old(repo.users), id).None? ==>
        && response == NotFoundResponse(id)
        && repo.users == old(repo.users)
        && repo.writes == old(repo.writes)
      ensures !AnyWithUsername(old(repo.users), username) && FirstWithId(old(repo.users), id).Some? ==>
        && response == SuccessResponse(None)
        && repo.users == ReplaceById(old(repo.users), User(id, username))
        && repo.writes == old(repo.writes) + [Saved(User(id, username))]
      ensures UniqueUsernames(old(repo.users)) ==> UniqueUsernames(repo.users)
    {
      var alreadyExists := repo.DoesUsernameExist(username);
      if alreadyExists {
        return ConflictResponse(username);
      }
      var user := repo.GetUserWithTracking(id);
      if user.None? {
        return NotFoundResponse(id);
      }
      var edited := user.value.(username := username);
      if UniqueUsernames(repo.users) {
        ReplaceByIdPreservesUnique(repo.users, edited);
      }
      repo.UpdateContext(edited);
      response := SuccessResponse(None);
    }

    /** An unknown id gives `false` and no delete; a known id removes exactly that record. */
    method DeleteUser(id: int) returns (deleted: bool)
      requires repo.Valid()
      modifies repo
      ensures repo.Valid()
      ensures deleted <==> FirstWithId(old(repo.users), id).Some?
      ensures !deleted ==> repo.users == old(repo.users) && repo.writes == old(repo.writes)
      ensures deleted ==>
        && var user := FirstWithId(old(repo.users), id).value;
        && multiset(repo.users) == multiset(old(repo.users)) - multiset{user}
        && repo.users == RemoveById(old(repo.users), id)
        && repo.writes == old(repo.writes) + [Removed(user)]
      ensures UniqueUsernames(old(repo.users)) ==> UniqueUsernames(repo.users)
    {
      var user := repo.GetUserWithTracking(id);
      if user.None? {
        return false;
      }
      if UniqueUsernames(repo.users) {
        RemoveByIdKeepsUniqueUsernames(repo.users, id);
      }
      repo.DeleteUser(user.value);
      deleted := true;
    }
  }
}
