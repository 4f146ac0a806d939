/**
 * The user service: each operation is a fixed chain of guards over the
 * repository that either produces a response or fails with an HTTP status code
 * and a detail message.
 */
module UserServices {
  import opened UserModels
  import opened UserSchemas
  import opened UserRepositories

  /** An `HTTPException`: status code and detail text. */
  datatype HttpError = HttpError(code: int, detail: string)

  datatype Result<+T> = Ok(value: T) | Err(error: HttpError)

  const BadRequest: int := 400
  const Unauthorized: int := 401
  const NotFoundCode: int := 404

  const IncorrectCredentials := HttpError(Unauthorized, "Incorrect username or password")
  const InactiveUser := HttpError(BadRequest, "Inactive user")
  const UsernameTaken := HttpError(BadRequest, "Username or email already exists")
  const EmailTaken := HttpError(BadRequest, "Email already exists")
  const UserNotFound := HttpError(NotFoundCode, "User not found")
  const EmailRegistered := HttpError(BadRequest, "Email already registered")
  const WrongCurrentPassword := HttpError(BadRequest, "Incorrect current password")

  const PasswordUpdated: string := "Password updated successfully"
  const UserDeleted: string := "User deleted successfully"

  /** The request asks for an email that another account already holds. */
  predicate EmailClash(users: seq<User>, id: int, upd: UserUpdate) {
    upd.email.Set? && exists u :: u in users && u.email == upd.email.value && u.id != id
  }

  predicate HasId(users: seq<User>, id: int) {
    exists u :: u in users && u.id == id
  }

  class UserService {
    const repo: UserRepository

    constructor (repo: UserRepository)
      ensures this.repo == repo
    {
      this.repo := repo;
    }

    /**
     * Login by username or email. The account found first decides: an inactive
     * account is refused before its password is looked at.
     */
    method AuthenticateUser(login: UserLogin) returns (r: Result<UserResponse>)
      ensures (forall u :: u in repo.users ==> u.username != login.username && u.email != login.username)
        ==> r == Err(IncorrectCredentials)
      ensures forall i ::
                FirstIn(repo.users, ByUsernameOrEmail(login.username), i) && !repo.users[i].is_active
                ==> r == Err(InactiveUser)
      ensures forall i ::
                (FirstIn(repo.users, ByUsernameOrEmail(login.username), i) && repo.users[i].is_active
                 && repo.users[i].password != login.password)
                ==> r == Err(IncorrectCredentials)
      ensures r.Ok? <==>
                exists i ::
                  FirstIn(repo.users, ByUsernameOrEmail(login.username), i)
                  && repo.users[i].is_active && repo.users[i].password == login.password
      ensures r.Ok? ==>
                exists i ::
                  FirstIn(repo.users, ByUsernameOrEmail(login.username), i)
                  && r.value == ToResponse(repo.users[i])
      ensures r.Ok? ==>
                exists u ::
                  u in repo.users && u.is_active && u.password == login.password
                  && (u.username == login.username || u.email == login.username) && r.value == ToResponse(u)
    {
      var found := repo.GetUserByUsernameOrEmail(login.username);
      if found.None? {
        return Err(IncorrectCredentials);
      }
      var i := FirstMatch(repo.users, ByUsernameOrEmail(login.username)).value;
      forall j | FirstIn(repo.users, ByUsernameOrEmail(login.username), j) ensures j == i {
        FirstInUnique(repo.users, ByUsernameOrEmail(login.username), i, j);
      }
      var u := found.value;
      if !u.is_active {
        return Err(InactiveUser);
      }
      if u.password != login.password {
        return Err(IncorrectCredentials);
      }
      return Ok(ToResponse(u));
    }

    /**
     * Registration refuses a taken username first, then a taken email; otherwise
     * exactly one record is appended.
     */
    method RegisterUser(data: UserCreate) returns (r: Result<UserResponse>)
      requires repo.Valid()
      modifies repo
      ensures repo.Valid()
      ensures (exists u :: u in old(repo.users) && u.username == data.username)
        ==> r == Err(UsernameTaken) && repo.users == old(repo.users)
      ensures (forall u :: u in old(repo.users) ==> u.username != data.username)
        && (exists u :: u in old(repo.users) && u.email == data.email)
        ==> r == Err(EmailTaken) && repo.users == old(repo.users)
      ensures r.Ok? <==> forall u :: u in old(repo.users) ==> u.username != data.username && u.email != data.email
      ensures r.Ok? ==>
        && |repo.users| == |old(repo.users)| + 1
        && repo.users[..|old(repo.users)|] == old(repo.users)
        && CreatedFrom(repo.users[|old(repo.users)|], data)
        && r.value == ToResponse(repo.users[|old(repo.users)|])
    {
      var byName := repo.GetUserByUsername(data.username);
      if byName.Some? {
        return Err(UsernameTaken);
      }
      var byEmail := repo.GetUserByEmail(data.email);
      if byEmail.Some? {
        return Err(EmailTaken);
      }
      var created := repo.CreateUser(data);
      assert repo.users[..|old(repo.users)|] == old(repo.users);
      return Ok(ToResponse(created));
    }

    method GetUserById(id: int) returns (r: Result<UserResponse>)
      ensures r.Ok? <==> HasId(repo.users, id)
      ensures r.Ok? ==> exists u :: u in repo.users && u.id == id && r.value == ToResponse(u)
      ensures r.Err? ==> r.error == UserNotFound
    {
      var found := repo.GetUserById(id);
      if found.None? {
        return Err(UserNotFound);
      }
      return Ok(ToResponse(found.value));
    }

    /** One page of the table, as list entries, in table order. */
    method GetAllUsers(skip: nat, limit: nat) returns (r: seq<UserListResponse>)
      ensures |r| == if skip >= |repo.users| then 0
                     else if limit < |repo.users| - skip then limit else |repo.users| - skip
      ensures forall k :: 0 <= k < |r| ==> skip + k < |repo.users| && r[k] == ToListResponse(repo.users[skip + k])
    {
      var page := repo.GetAllUsers(skip, limit);
      r := seq(|page|, k requires 0 <= k < |page| => ToListResponse(page[k]));
    }

    /**
     * Profile update. The email clash is checked before the id is looked up, so it
     * is reported even for an id that does not exist; an account may keep its own email.
     */
    method UpdateUser(id: int, upd: UserUpdate) returns (r: Result<UserResponse>)
      requires repo.Valid()
      requires upd.email != Set("")
      modifies repo
      ensures repo.Valid()
      ensures EmailClash(old(repo.users), id, upd) ==> r == Err(EmailRegistered) && repo.users == old(repo.users)
      ensures !EmailClash(old(repo.users), id, upd) && !HasId(old(repo.users), id)
        ==> r == Err(UserNotFound) && repo.users == old(repo.users)
      ensures r.Ok? <==> !EmailClash(old(repo.users), id, upd) && HasId(old(repo.users), id)
      ensures r.Ok? ==>
        && repo.users == UpdateById(old(repo.users), id, ApplyUpdate(upd))
        && exists u :: u in old(repo.users) && u.id == id && r.value == ToResponse(Patched(u, upd))
    {
      if upd.email.Set? && upd.email.value != "" {
        var existing := repo.GetUserByEmail(upd.email.value);
        if existing.Some? && existing.value.id != id {
          return Err(EmailRegistered);
        }
        assert forall u :: u in repo.users && u.email == upd.email.value ==> u.id == id by {
          forall u | u in repo.users && u.email == upd.email.value ensures u.id == id {
            var k :| 0 <= k < |repo.users| && repo.users[k] == u;
            UniqueMatch(repo.users, ByEmail(upd.email.value), k);
          }
        }
      }
      var updated := repo.UpdateUserData(id, upd);
      if updated.None? {
        return Err(UserNotFound);
      }
      return Ok(ToResponse(updated.value));
    }

    /** Password change: the account must exist and the current password must match. */
    method UpdateUserPassword(id: int, p: UserUpdatePassword) returns (r: Result<string>)
      requires repo.Valid()
      modifies repo
      ensures repo.Valid()
      ensures !HasId(old(repo.users), id) ==> r == Err(UserNotFound) && repo.users == old(repo.users)
      ensures (exists u :: u in old(repo.users) && u.id == id && u.password != p.current_password)
        ==> r == Err(WrongCurrentPassword) && repo.users == old(repo.users)
      ensures r.Ok? <==> exists u :: u in old(repo.users) && u.id == id && u.password == p.current_password
      ensures r.Ok? ==>
                r.value == PasswordUpdated
                && repo.users == UpdateById(old(repo.users), id, SetPassword(p.new_password))
    {
      var found := repo.GetUserById(id);
      if found.None? {
        return Err(UserNotFound);
      }
      forall u | u in repo.users && u.id == id ensures u == found.value {
        var j :| 0 <= j < |repo.users| && repo.users[j] == u;
        UniqueMatch(repo.users, ById(id), j);
      }
      if found.value.password != p.current_password {
        return Err(WrongCurrentPassword);
      }
      var _ := repo.UpdateUserPassword(id, p.new_password);
      return Ok(PasswordUpdated);
    }

    method DeleteUser(id: int) returns (r: Result<string>)
      requires repo.Valid()
      modifies repo
      ensures repo.Valid()
      ensures r.Ok? <==> HasId(old(repo.users), id)
      ensures r.Ok? ==> r.value == UserDeleted && repo.users == RemoveById(old(repo.users), id)
      ensures r.Err? ==> r.error == UserNotFound && repo.users == old(repo.users)
    {
      var removed := repo.DeleteUser(id);
      if removed.None? {
        return Err(UserNotFound);
      }
      return Ok(UserDeleted);
    }

    method DeactivateUser(id: int) returns (r: Result<UserResponse>)
      requires repo.Valid()
      modifies repo
      ensures repo.Valid()
      ensures r.Ok? <==> HasId(old(repo.users), id)
      ensures r.Ok? ==>
        && repo.users == UpdateById(old(repo.users), id, Deactivate)
        && exists u :: u in old(repo.users) && u.id == id && r.value == ToResponse(u.(is_active := false))
      ensures r.Err? ==> r.error == UserNotFound && repo.users == old(repo.users)
    {
      var updated := repo.DeactivateUser(id);
      if updated.None? {
        return Err(UserNotFound);
      }
      UpdateByIdPointwise(old(repo.users), id, Deactivate);
      return Ok(ToResponse(updated.value));
    }
  }
}
