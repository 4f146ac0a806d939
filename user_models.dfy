/** The `users` table: the shape of one account record and the keys the table keeps unique. */
module UserModels {

  datatype Option<+T> = None | Some(value: T)

  /** One row of the `users` table. The three timestamp columns are not modelled. */
  datatype User = User(
    id: int,
    username: string,
    email: string,
    password: string,
    full_name: Option<string>,
    bio: Option<string>,
    avatar_url: Option<string>,
    is_active: bool,
    is_online: bool)

  /** Column defaults applied to a freshly inserted row. */
  const DefaultIsActive: bool := true
  const DefaultIsOnline: bool := false

  /** `id` is the primary key; `username` and `email` carry unique constraints. */
  predicate UniqueKeys(users: seq<User>) {
    forall i, j :: 0 <= i < |users| && 0 <= j < |users| && i != j ==>
      users[i].id != users[j].id &&
      users[i].username != users[j].username &&
      users[i].email != users[j].email
  }
}
