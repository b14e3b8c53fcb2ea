/** The start-up seeding of the store with two users. */
module Seeding {
  import opened Models
  import opened Repository

  const SeedUsers: seq<User> := [User(1, "Bob1965"), User(2, "Alice1991")]

  /**
   * Seeds the store only when it is empty; a seeded store satisfies both the
   * store's key invariant and the service's username invariant.
   */
  method Initialize(repo: UsersRepository)
    requires repo.Valid()
    modifies repo
    ensures repo.Valid() && repo.writes == old(repo.writes)
    ensures old(repo.users) != [] ==> repo.users == old(repo.users)
    ensures old(repo.users) == [] ==> repo.users == SeedUsers && UniqueUsernames(repo.users)
  {
    if repo.users != [] {
      return;
    }
    repo.users := SeedUsers;
  }
}
