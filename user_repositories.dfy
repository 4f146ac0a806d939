/**
 * The user repository: every query and update the service issues against the
 * `users` table. The table is an ordered sequence of records; "table order" is
 * the order of that sequence, and a query's `.first()` is the earliest match in it.
 */
module UserRepositories {
  import opened UserModels
  import opened UserSchemas

  // ---------------------------------------------------------------------------
  // Queries

  /** The filters the repository's lookups apply. */
  datatype Key =
    | ById(id: int)
    | ByUsername(username: string)
    | ByEmail(email: string)
    | ByUsernameOrEmail(name: string)

  predicate Matches(u: User, key: Key) {
    match key
    case ById(id) => u.id == id
    case ByUsername(name) => u.username == name
    case ByEmail(email) => u.email == email
    case ByUsernameOrEmail(name) => u.username == name || u.email == name
  }

  /** Position i holds the earliest record of the table that the filter accepts. */
  predicate FirstIn(users: seq<User>, key: Key, i: int) {
    0 <= i < |users| && Matches(users[i], key) &&
    forall j :: 0 <= j < i ==> !Matches(users[j], key)
  }

  /** `query(User).filter(key).first()`, as a position in the table. */
  function FirstMatch(users: seq<User>, key: Key): (r: Option<nat>)
    ensures r.Some? ==> FirstIn(users, key, r.value)
    ensures r.None? <==> forall j :: 0 <= j < |users| ==> !Matches(users[j], key)
  {
    if users == [] then None
    else if Matches(users[0], key) then Some(0)
    else match FirstMatch(users[1..], key)
      case None => None
      case Some(i) => Some(i + 1)
  }

  function Lookup(users: seq<User>, key: Key): Option<User> {
    match FirstMatch(users, key)
    case None => None
    case Some(i) => Some(users[i])
  }

  /** At most one position is the first match. */
  lemma FirstInUnique(users: seq<User>, key: Key, i: int, j: int)
    requires FirstIn(users, key, i) && FirstIn(users, key, j)
    ensures i == j
  {
  }

  /**
   * On a table whose keys are unique, a lookup by id, username or email finds the
   * one record that carries that value.
   */
  lemma UniqueMatch(users: seq<User>, key: Key, k: int)
    requires UniqueKeys(users)
    requires !key.ByUsernameOrEmail?
    requires 0 <= k < |users| && Matches(users[k], key)
    ensures FirstMatch(users, key) == Some(k)
  {
  }

  /** `filter(User.is_active == True).all()`: the active records in table order. */
  function ActiveUsers(users: seq<User>): (r: seq<User>)
    ensures |r| <= |users|
    ensures forall u :: u in r <==> u in users && u.is_active
  {
    if users == [] then []
    else (if users[0].is_active then [users[0]] else []) + ActiveUsers(users[1..])
  }

  /** The filter keeps table order: it distributes over concatenation. */
  lemma {:induction false} ActiveUsersConcat(a: seq<User>, b: seq<User>)
    ensures ActiveUsers(a + b) == ActiveUsers(a) + ActiveUsers(b)
  {
    if a == [] {
      assert a + b == b;
    } else {
      assert (a + b)[1..] == a[1..] + b;
      ActiveUsersConcat(a[1..], b);
    }
  }

  /** A freshly inserted row: the request's fields, and the column defaults for the flags. */
  predicate CreatedFrom(u: User, data: UserCreate) {
    && u.username == data.username && u.email == data.email && u.password == data.password
    && u.full_name == data.full_name && u.bio == data.bio && u.avatar_url == data.avatar_url
    && u.is_active == DefaultIsActive && u.is_online == DefaultIsOnline
  }

  // ---------------------------------------------------------------------------
  // Updates of one record

  /** `setattr(db_user, field, value)` for one entry of the update data. */
  function SetAttr(u: User, f: FieldValue): User {
    match f
    case EmailField(e) => u.(email := e)
    case FullNameField(n) => u.(full_name := n)
    case BioField(b) => u.(bio := b)
    case AvatarUrlField(a) => u.(avatar_url := a)
  }

  /** The record after the `setattr` loop has run over `fields`, in order. */
  function ApplyFields(u: User, fields: seq<FieldValue>): User
    decreases |fields|
  {
    if fields == [] then u
    else SetAttr(ApplyFields(u, fields[..|fields| - 1]), fields[|fields| - 1])
  }

  /** Field by field, what an update request leaves in a record. */
  function Patched(u: User, upd: UserUpdate): User {
    u.(email := if upd.email.Set? then upd.email.value else u.email,
       full_name := if upd.full_name.Set? then upd.full_name.value else u.full_name,
       bio := if upd.bio.Set? then upd.bio.value else u.bio,
       avatar_url := if upd.avatar_url.Set? then upd.avatar_url.value else u.avatar_url)
  }

  /** No update field reaches id, username, password, is_active or is_online. */
  lemma {:induction false} ApplyFieldsKeepsIdentity(u: User, fields: seq<FieldValue>)
    ensures var r := ApplyFields(u, fields);
      r.id == u.id && r.username == u.username && r.password == u.password &&
      r.is_active == u.is_active && r.is_online == u.is_online
  {
    if fields != [] {
      ApplyFieldsKeepsIdentity(u, fields[..|fields| - 1]);
    }
  }

  lemma {:induction false} ApplyFieldsAppend(u: User, a: seq<FieldValue>, b: seq<FieldValue>)
    ensures ApplyFields(u, a + b) == ApplyFields(ApplyFields(u, a), b)
    decreases |b|
  {
    if b == [] {
      assert a + b == a;
    } else {
      assert (a + b)[..|a + b| - 1] == a + b[..|b| - 1];
      ApplyFieldsAppend(u, a, b[..|b| - 1]);
    }
  }

  /** One entry of the dump, or none, applied to a record. */
  lemma ApplyEntry<T>(u: User, p: Patch<T>, field: T -> FieldValue)
    ensures ApplyFields(u, Entry(p, field)) == if p.Set? then SetAttr(u, field(p.value)) else u
  {
    if p.Set? {
      assert Entry(p, field)[..0] == [];
    }
  }

  /** The `setattr` loop over the explicitly set fields yields exactly the patched record. */
  lemma ApplyUpdateData(u: User, upd: UserUpdate)
    ensures ApplyFields(u, UpdateData(upd)) == Patched(u, upd)
  {
    var e := Entry(upd.email, s => EmailField(s));
    var n := Entry(upd.full_name, s => FullNameField(s));
    var b := Entry(upd.bio, s => BioField(s));
    var a := Entry(upd.avatar_url, s => AvatarUrlField(s));
    ApplyFieldsAppend(u, (e + n) + b, a);
    ApplyFieldsAppend(u, e + n, b);
    ApplyFieldsAppend(u, e, n);
    var u1 := ApplyFields(u, e);
    var u2 := ApplyFields(u1, n);
    var u3 := ApplyFields(u2, b);
    ApplyEntry(u, upd.email, s => EmailField(s));
    ApplyEntry(u1, upd.full_name, s => FullNameField(s));
    ApplyEntry(u2, upd.bio, s => BioField(s));
    ApplyEntry(u3, upd.avatar_url, s => AvatarUrlField(s));
    assert u1 == u.(email := if upd.email.Set? then upd.email.value else u.email);
    assert u2 == u1.(full_name := if upd.full_name.Set? then upd.full_name.value else u.full_name);
    assert u3 == u2.(bio := if upd.bio.Set? then upd.bio.value else u.bio);
  }

  /** The in-place edits the repository makes to one record. */
  datatype Edit =
    | ApplyUpdate(upd: UserUpdate)
    | SetPassword(password: string)
    | Deactivate
    | SetOnline(online: bool)

  function ApplyEdit(u: User, e: Edit): User {
    match e
    case ApplyUpdate(upd) => Patched(u, upd)
    case SetPassword(p) => u.(password := p)
    case Deactivate => u.(is_active := false)
    case SetOnline(b) => u.(is_online := b)
  }

  /** Look the record up by id and edit it in place; a missing id leaves the table alone. */
  function UpdateById(users: seq<User>, id: int, e: Edit): seq<User> {
    match FirstMatch(users, ById(id))
    case None => users
    case Some(i) => users[i := ApplyEdit(users[i], e)]
  }

  /** With unique ids, exactly the record carrying the id is edited, and nothing else moves. */
  lemma UpdateByIdPointwise(users: seq<User>, id: int, e: Edit)
    requires UniqueKeys(users)
    ensures |UpdateById(users, id, e)| == |users|
    ensures forall k :: 0 <= k < |users| ==>
      UpdateById(users, id, e)[k] == if users[k].id == id then ApplyEdit(users[k], e) else users[k]
  {
    var r := UpdateById(users, id, e);
    forall k | 0 <= k < |users|
      ensures r[k] == if users[k].id == id then ApplyEdit(users[k], e) else users[k]
    {
      if users[k].id == id {
        UniqueMatch(users, ById(id), k);
      }
    }
  }

  /**
   * Editing keeps the keys unique, provided a new email belongs to no other
   * record (the unique constraint the database enforces at commit).
   */
  lemma UpdateByIdKeepsUnique(users: seq<User>, id: int, e: Edit)
    requires UniqueKeys(users)
    requires e.ApplyUpdate? && e.upd.email.Set? ==>
      forall u :: u in users && u.email == e.upd.email.value ==> u.id == id
    ensures UniqueKeys(UpdateById(users, id, e))
    ensures |UpdateById(users, id, e)| == |users|
    ensures forall k :: 0 <= k < |users| ==> UpdateById(users, id, e)[k].id == users[k].id
  {
    UpdateByIdPointwise(users, id, e);
    var r := UpdateById(users, id, e);
    forall i, j | 0 <= i < |r| && 0 <= j < |r| && i != j
      ensures r[i].id != r[j].id && r[i].username != r[j].username && r[i].email != r[j].email
    {
      if e.ApplyUpdate? && e.upd.email.Set? && users[i].id == id {
        assert users[j] in users;
      }
      if e.ApplyUpdate? && e.upd.email.Set? && users[j].id == id {
        assert users[i] in users;
      }
    }
  }

  /** Deactivating twice is deactivating once. */
  lemma DeactivateIdempotent(users: seq<User>, id: int)
    requires UniqueKeys(users)
    ensures UpdateById(UpdateById(users, id, Deactivate), id, Deactivate) == UpdateById(users, id, Deactivate)
  {
    UpdateByIdPointwise(users, id, Deactivate);
    UpdateByIdKeepsUnique(users, id, Deactivate);
    var once := UpdateById(users, id, Deactivate);
    UpdateByIdPointwise(once, id, Deactivate);
  }

  /** `db.delete(db_user)` after looking it up by id. */
  function RemoveById(users: seq<User>, id: int): seq<User> {
    match FirstMatch(users, ById(id))
    case None => users
    case Some(i) => users[..i] + users[i + 1..]
  }

  /** Dropping position i keeps every other record, in order. */
  lemma RemoveAtMembers(users: seq<User>, i: int)
    requires 0 <= i < |users|
    ensures forall k :: 0 <= k < i ==> (users[..i] + users[i + 1..])[k] == users[k]
    ensures forall k :: i < k < |users| ==> (users[..i] + users[i + 1..])[k - 1] == users[k]
  {
  }

  /** With unique ids, the record at i is the only one carrying its id. */
  lemma RemoveAtExact(users: seq<User>, i: int)
    requires UniqueKeys(users) && 0 <= i < |users|
    ensures forall u :: u in users[..i] + users[i + 1..] <==> u in users && u.id != users[i].id
  {
    var r := users[..i] + users[i + 1..];
    RemoveAtMembers(users, i);
    forall u ensures u in r <==> u in users && u.id != users[i].id {
      if u in users && u.id != users[i].id {
        var k :| 0 <= k < |users| && users[k] == u;
        if k < i { assert r[k] == u; } else { assert r[k - 1] == u; }
      }
      if u in r {
        var k :| 0 <= k < |r| && r[k] == u;
        if k < i { assert users[k] == u; } else { assert users[k + 1] == u; }
      }
    }
  }

  lemma RemoveAtKeepsUnique(users: seq<User>, i: int)
    requires UniqueKeys(users) && 0 <= i < |users|
    ensures UniqueKeys(users[..i] + users[i + 1..])
  {
    var r := users[..i] + users[i + 1..];
    RemoveAtMembers(users, i);
    forall a, b | 0 <= a < |r| && 0 <= b < |r| && a != b
      ensures r[a].id != r[b].id && r[a].username != r[b].username && r[a].email != r[b].email
    {
      var a' := if a < i then a else a + 1;
      var b' := if b < i then b else b + 1;
      assert r[a] == users[a'] && r[b] == users[b'];
    }
  }

  /**
   * With unique ids, deleting removes exactly the record carrying the id: the
   * remaining records are the others, one fewer if the id was there, and keys stay unique.
   */
  lemma RemoveByIdExact(users: seq<User>, id: int)
    requires UniqueKeys(users)
    ensures forall u :: u in RemoveById(users, id) <==> u in users && u.id != id
    ensures |RemoveById(users, id)| == if exists u :: u in users && u.id == id then |users| - 1 else |users|
    ensures UniqueKeys(RemoveById(users, id))
  {
    match FirstMatch(users, ById(id))
    case None =>
    case Some(i) =>
      RemoveAtExact(users, i);
      RemoveAtKeepsUnique(users, i);
  }

  /** Appending a record whose keys are all new keeps the keys unique. */
  lemma AppendKeepsUnique(users: seq<User>, u: User)
    requires UniqueKeys(users)
    requires forall v :: v in users ==> v.id != u.id && v.username != u.username && v.email != u.email
    ensures UniqueKeys(users + [u])
  {
    var r := users + [u];
    forall i, j | 0 <= i < |r| && 0 <= j < |r| && i != j
      ensures r[i].id != r[j].id && r[i].username != r[j].username && r[i].email != r[j].email
    {
      if i == |users| { assert users[j] in users; }
      if j == |users| { assert users[i] in users; }
    }
  }

  /** The `setattr` loop: assigns each entry of the update data to the record, in order. */
  method SetAttrs(u: User, data: seq<FieldValue>) returns (r: User)
    ensures r == ApplyFields(u, data)
    ensures r.id == u.id && r.username == u.username && r.password == u.password
    ensures r.is_active == u.is_active && r.is_online == u.is_online
  {
    r := u;
    for k := 0 to |data|
      invariant r == ApplyFields(u, data[..k])
    {
      assert data[..k + 1][..k] == data[..k];
      r := SetAttr(r, data[k]);
    }
    assert data[..|data|] == data;
    ApplyFieldsKeepsIdentity(u, data);
  }

  // ---------------------------------------------------------------------------
  // The repository object

  class UserRepository {
    /** The rows of `users`, in table order. */
    var users: seq<User>
    /** The primary key the database will hand out next. */
    var nextId: int

    ghost predicate Valid()
      reads this
    {
      && UniqueKeys(users)
      && 1 <= nextId
      && forall u :: u in users ==> u.id < nextId
    }

    constructor ()
      ensures Valid() && users == []
    {
      users := [];
      nextId := 1;
    }

    method GetUserById(id: int) returns (r: Option<User>)
      ensures r == Lookup(users, ById(id))
      ensures r.Some? ==> r.value in users && r.value.id == id
      ensures r.None? <==> forall u :: u in users ==> u.id != id
    {
      r := Lookup(users, ById(id));
    }

    method GetUserByUsername(username: string) returns (r: Option<User>)
      ensures r == Lookup(users, ByUsername(username))
      ensures r.Some? ==> r.value in users && r.value.username == username
      ensures r.None? <==> forall u :: u in users ==> u.username != username
    {
      r := Lookup(users, ByUsername(username));
    }

    method GetUserByEmail(email: string) returns (r: Option<User>)
      ensures r == Lookup(users, ByEmail(email))
      ensures r.Some? ==> r.value in users && r.value.email == email
      ensures r.None? <==> forall u :: u in users ==> u.email != email
    {
      r := Lookup(users, ByEmail(email));
    }

    method GetUserByUsernameOrEmail(name: string) returns (r: Option<User>)
      ensures r == Lookup(users, ByUsernameOrEmail(name))
      ensures r.Some? ==> exists i :: FirstIn(users, ByUsernameOrEmail(name), i) && users[i] == r.value
      ensures r.Some? ==> r.value.username == name || r.value.email == name
      ensures r.None? <==> forall u :: u in users ==> u.username != name && u.email != name
    {
      r := Lookup(users, ByUsernameOrEmail(name));
    }

    /** `offset(skip).limit(limit).all()`. */
    method GetAllUsers(skip: nat, limit: nat) returns (r: seq<User>)
      ensures |r| == if skip >= |users| then 0 else if limit < |users| - skip then limit else |users| - skip
      ensures forall k :: 0 <= k < |r| ==> skip + k < |users| && r[k] == users[skip + k]
    {
      var lo := if skip < |users| then skip else |users|;
      var hi := if limit < |users| - lo then lo + limit else |users|;
      r := users[lo..hi];
    }

    method GetActiveUsers() returns (r: seq<User>)
      ensures r == ActiveUsers(users)
      ensures forall u :: u in r <==> u in users && u.is_active
    {
      r := ActiveUsers(users);
    }

    /** Inserts a row with a fresh id, the request's profile fields and the column defaults. */
    method CreateUser(data: UserCreate) returns (r: User)
      requires Valid()
      requires forall u :: u in users ==> u.username != data.username && u.email != data.email
      modifies this
      ensures Valid()
      ensures users == old(users) + [r]
      ensures forall u :: u in old(users) ==> u.id != r.id
      ensures CreatedFrom(r, data)
    {
      r := User(nextId, data.username, data.email, data.password,
                data.full_name, data.bio, data.avatar_url, DefaultIsActive, DefaultIsOnline);
      AppendKeepsUnique(users, r);
      users := users + [r];
      nextId := nextId + 1;
    }

    /** Overwrites the explicitly set fields of the record with that id, one `setattr` at a time. */
    method UpdateUserData(id: int, upd: UserUpdate) returns (r: Option<User>)
      requires Valid()
      requires upd.email.Set? ==> forall u :: u in users && u.email == upd.email.value ==> u.id == id
      modifies this
      ensures Valid() && nextId == old(nextId)
      ensures users == UpdateById(old(users), id, ApplyUpdate(upd))
      ensures r == Lookup(users, ById(id))
      ensures r.None? <==> forall u :: u in old(users) ==> u.id != id
      ensures r.Some? ==> exists u :: u in old(users) && u.id == id && r.value == Patched(u, upd)
    {
      var found := FirstMatch(users, ById(id));
      if found.None? {
        r := None;
        return;
      }
      var i := found.value;
      var original := users[i];
      var rec := SetAttrs(original, UpdateData(upd));
      ApplyUpdateData(original, upd);
      UpdateByIdKeepsUnique(users, id, ApplyUpdate(upd));
      users := users[i := rec];
      UniqueMatch(users, ById(id), i);
      r := Some(rec);
      assert original in old(users);
    }

    /** Sets the password of the record with that id. */
    method UpdateUserPassword(id: int, password: string) returns (r: Option<User>)
      requires Valid()
      modifies this
      ensures Valid() && nextId == old(nextId)
      ensures users == UpdateById(old(users), id, SetPassword(password))
      ensures r == Lookup(users, ById(id))
      ensures r.None? <==> forall u :: u in old(users) ==> u.id != id
    {
      r := EditById(id, SetPassword(password));
    }

    /** Deletes the record with that id and returns it as it was. */
    method DeleteUser(id: int) returns (r: Option<User>)
      requires Valid()
      modifies this
      ensures Valid() && nextId == old(nextId)
      ensures users == RemoveById(old(users), id)
      ensures r == Lookup(old(users), ById(id))
      ensures r.None? <==> forall u :: u in old(users) ==> u.id != id
    {
      r := Lookup(users, ById(id));
      RemoveByIdExact(users, id);
      users := RemoveById(users, id);
    }

    /** Clears `is_active` of the record with that id. */
    method DeactivateUser(id: int) returns (r: Option<User>)
      requires Valid()
      modifies this
      ensures Valid() && nextId == old(nextId)
      ensures users == UpdateById(old(users), id, Deactivate)
      ensures r == Lookup(users, ById(id))
      ensures r.None? <==> forall u :: u in old(users) ==> u.id != id
    {
      r := EditById(id, Deactivate);
    }

    /** Sets `is_online` of the record with that id. */
    method SetOnlineStatus(id: int, online: bool) returns (r: Option<User>)
      requires Valid()
      modifies this
      ensures Valid() && nextId == old(nextId)
      ensures users == UpdateById(old(users), id, SetOnline(online))
      ensures r == Lookup(users, ById(id))
      ensures r.None? <==> forall u :: u in old(users) ==> u.id != id
    {
      r := EditById(id, SetOnline(online));
    }

    /** Shared body of the single-field updates: look up by id, assign in place. */
    method EditById(id: int, e: Edit) returns (r: Option<User>)
      requires Valid()
      requires !e.ApplyUpdate?
      modifies this
      ensures Valid() && nextId == old(nextId)
      ensures users == UpdateById(old(users), id, e)
      ensures r == Lookup(users, ById(id))
      ensures r.None? <==> forall u :: u in old(users) ==> u.id != id
    {
      var found := FirstMatch(users, ById(id));
      if found.None? {
        r := None;
        return;
      }
      var i := found.value;
      UpdateByIdKeepsUnique(users, id, e);
      users := users[i := ApplyEdit(users[i], e)];
      UniqueMatch(users, ById(id), i);
      r := Some(users[i]);
    }
  }
}
