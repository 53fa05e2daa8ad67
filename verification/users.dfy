/** The user table behind UserRepository. */
module Users {
  import opened Time

  type UserId = int

  /** A user row. Roles the builder leaves unset are assumed to be the
      empty list (the entity class is not part of this model). */
  datatype User = User(
    id: UserId,
    username: string,
    password: string,
    createdAt: LocalDateTime,
    updatedAt: LocalDateTime,
    roles: seq<string>)

  class UserRepository {
    var users: map<UserId, User>

    /** Every row is stored under its own id. */
    ghost predicate Valid()
      reads this
    {
      forall id :: id in users ==> users[id].id == id
    }

    constructor ()
      ensures Valid() && users == map[]
    {
      users := map[];
    }

    /** save: the row is stored under its id, replacing any row there. */
    method Save(user: User) returns (saved: User)
      requires Valid()
      modifies this
      ensures Valid()
      ensures saved == user && users == old(users)[user.id := user]
    {
      users := users[user.id := user];
      saved := user;
    }
  }
}
