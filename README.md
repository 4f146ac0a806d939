# User accounts of the FastAPI backend, modelled in Dafny

This project models the user-account core of a small FastAPI backend. The core has three layers.

- **`UserRepository`** queries and updates the `users` table. The table is a class field `users: seq<User>` kept in table order. Lookups are `filter(...).first()`. The mutators append, delete, or assign fields of one row in place. The class invariant `Valid()` says that `id`, `username` and `email` are unique, which are the table's primary key and unique constraints. It also says every id lies below the next id the database will hand out.
- **`UserService`** runs each operation as a short chain of guards over the repository. The result is `Result<T>`: either `Ok(value)` or `Err(HttpError(code, detail))`, with the source's exact status codes and detail strings.
- **Schemas** decide which request bodies Pydantic accepts: length bounds, alphanumeric usernames, a cap of 128 UTF-8 bytes on passwords, and the cross-field rules of a password change. The UTF-8 byte length is defined per code point. It is tied to an actual encoder (RFC 3629, section 3) by a lemma.

Files:

- `user_models.dfy` (module `UserModels`): the `User` record, the column defaults and `UniqueKeys`.
- `user_schemas.dfy` (module `UserSchemas`): request and response types, the validation predicates, UTF-8 length, and the password-change validation pipeline.
- `user_repositories.dfy` (module `UserRepositories`): lookup and edit functions over the table, the lemmas about them, and the class `UserRepository`.
- `user_services.dfy` (module `UserServices`): `HttpError`, `Result` and the class `UserService`.

Two classification functions are parameters of the schema predicates. `alnumChar` is the per-code-point test behind Python's `str.isalnum`. `isEmail` is `EmailStr` validation.

## Model

| member | source | states |
|---|---|---|
| `UserSchemas.EncodeChar` | backend/app/schemas/user_schemas.py:30 | one code point encodes to 1 to 4 bytes; ASCII is encoded as itself; the leading byte lies in 0xC2..0xDF, 0xE0..0xEF or 0xF0..0xF4 by width; continuation bytes lie in 0x80..0xBF |
| `UserSchemas.EncodeUtf8Length` | backend/app/schemas/user_schemas.py:30 | `Utf8Length(s)` equals the length of the UTF-8 encoding of `s`, the quantity `len(v.encode('utf-8'))` |
| `UserSchemas.Utf8LengthBounds` | backend/app/schemas/user_schemas.py:27-32 | the byte length of a string is between its character count and four times its character count |
| `UserSchemas.Utf8LengthAscii` | backend/app/schemas/user_schemas.py:27-32 | on ASCII text the byte length equals the character count |
| `UserSchemas.ValidPasswordByBytes` | backend/app/schemas/user_schemas.py:18-32 | the byte cap implies the 128-character cap, so a password is valid exactly when it has at least 10 characters and at most 128 bytes |
| `UserSchemas.ShortPasswordFitsBytes` | backend/app/schemas/user_schemas.py:27-32 | a password of at most 32 code points never exceeds 128 bytes |
| `UserSchemas.AsciiPasswordValid` | backend/app/schemas/user_schemas.py:18-32 | for ASCII passwords the byte cap adds nothing to the 10..128 length bounds |
| `UserSchemas.WidePasswordRejected` | backend/app/schemas/user_schemas.py:18-32 | a 40-code-point password of four-byte characters meets the length bounds but is refused by the byte cap |
| `UserSchemas.UsernameRejections` | backend/app/schemas/user_schemas.py:8-25 | a `UserCreate` username is accepted only if its length is 5..25 and every code point is alphanumeric; anything else is refused |
| `UserSchemas.RegisteredCredentialsPassLogin` | backend/app/schemas/user_schemas.py:17-37 | any username and password accepted by `UserCreate` is also accepted by `UserLogin` |
| `UserSchemas.LoginAcceptsWidePassword` | backend/app/schemas/user_schemas.py:35-37 | `UserLogin` checks only lengths: it accepts a password that the byte cap of `UserCreate` refuses |
| `UserSchemas.BioCap` | backend/app/schemas/user_schemas.py:11-43 | the bio is at most 1000 characters in both `UserCreate` and `UserUpdate`; a null bio is allowed |
| `UserSchemas.EmptyUpdateAccepted` | backend/app/schemas/user_schemas.py:40-44 | every `UserUpdate` field is optional: the empty body is valid and its dump sets nothing |
| `UserSchemas.UpdateDataFields` | backend/app/repositories/user_repositories.py:46 | `model_dump(exclude_unset=True)` lists a field exactly when the request set it, one entry per set field |
| `UserSchemas.PasswordChangeAccepted` | backend/app/schemas/user_schemas.py:47-71 | Pydantic's field-by-field validation of `UserUpdatePassword` reports no error exactly when all three passwords are valid, confirm equals new, and new differs from current |
| `UserSchemas.MismatchRejected` | backend/app/schemas/user_schemas.py:52-57 | a confirmation that differs from the new password is always rejected, even though the validator only looks when the new password passed |
| `UserSchemas.SamePasswordRejected` | backend/app/schemas/user_schemas.py:59-64 | a new password equal to the current one is always rejected |
| `UserRepositories.FirstMatch` | backend/app/repositories/user_repositories.py:11-21 | `.first()` returns the earliest position whose record passes the filter, and nothing exactly when no record passes |
| `UserRepositories.UniqueMatch` | backend/app/models/user_models.py:9-11 | with unique keys, a lookup by id, username or email finds the one record carrying that value |
| `UserRepositories.ActiveUsers` | backend/app/repositories/user_repositories.py:26-27 | the result holds exactly the active records and is no longer than the table |
| `UserRepositories.ActiveUsersConcat` | backend/app/repositories/user_repositories.py:26-27 | the active filter keeps table order: it distributes over concatenation |
| `UserRepositories.ApplyFieldsKeepsIdentity` | backend/app/repositories/user_repositories.py:43-51 | the `setattr` loop never changes id, username, password, is_active or is_online |
| `UserRepositories.ApplyUpdateData` | backend/app/repositories/user_repositories.py:46-48 | running the `setattr` loop over the dump of a request gives exactly the record with the set fields overwritten and the others kept |
| `UserRepositories.SetAttrs` | backend/app/repositories/user_repositories.py:47-48 | the loop over the update data yields the record after every assignment in order, with its identity fields untouched |
| `UserRepositories.UpdateByIdPointwise` | backend/app/repositories/user_repositories.py:53-59 | with unique ids, an edit by id changes exactly the record with that id and leaves every other position as it was |
| `UserRepositories.UpdateByIdKeepsUnique` | backend/app/models/user_models.py:9-11 | an edit keeps the keys unique and every id in place, provided a new email belongs to no other record |
| `UserRepositories.DeactivateIdempotent` | backend/app/repositories/user_repositories.py:68-74 | deactivating twice leaves the same table as deactivating once |
| `UserRepositories.RemoveByIdExact` | backend/app/repositories/user_repositories.py:61-66 | deleting by id leaves exactly the records with other ids, one fewer if the id was present, with keys still unique |
| `UserRepositories.AppendKeepsUnique` | backend/app/repositories/user_repositories.py:29-41 | appending a record whose id, username and email are all new keeps the keys unique |
| `UserRepositories.UserRepository.constructor` | backend/app/repositories/user_repositories.py:8-9 | a new repository is over an empty table that satisfies the invariant |
| `UserRepositories.UserRepository.GetUserById` | backend/app/repositories/user_repositories.py:11-12 | the result carries the requested id, and is None exactly when no record has it |
| `UserRepositories.UserRepository.GetUserByUsername` | backend/app/repositories/user_repositories.py:14-15 | the result carries the requested username, and is None exactly when no record has it |
| `UserRepositories.UserRepository.GetUserByEmail` | backend/app/repositories/user_repositories.py:17-18 | the result carries the requested email, and is None exactly when no record has it |
| `UserRepositories.UserRepository.GetUserByUsernameOrEmail` | backend/app/repositories/user_repositories.py:20-21 | the result is the first record in table order whose username or email equals the input, and None exactly when there is none |
| `UserRepositories.UserRepository.GetAllUsers` | backend/app/repositories/user_repositories.py:23-24 | the result is the contiguous run of records starting at `skip`, at most `limit` long, in table order |
| `UserRepositories.UserRepository.GetActiveUsers` | backend/app/repositories/user_repositories.py:26-27 | the result is the active records in table order |
| `UserRepositories.UserRepository.CreateUser` | backend/app/repositories/user_repositories.py:29-41 | appends one record with an id no existing record has, the request's fields, `is_active` true and `is_online` false; earlier records are unchanged and the invariant holds |
| `UserRepositories.UserRepository.UpdateUserData` | backend/app/repositories/user_repositories.py:43-51 | overwrites only the set fields of the record with that id; returns None and changes nothing when the id is missing |
| `UserRepositories.UserRepository.UpdateUserPassword` | backend/app/repositories/user_repositories.py:53-59 | sets only the password of the record with that id; a missing id changes nothing |
| `UserRepositories.UserRepository.DeleteUser` | backend/app/repositories/user_repositories.py:61-66 | removes the record with that id and returns it as it was; a missing id returns None and changes nothing |
| `UserRepositories.UserRepository.DeactivateUser` | backend/app/repositories/user_repositories.py:68-74 | sets only `is_active` of the record with that id to false; a missing id changes nothing |
| `UserRepositories.UserRepository.SetOnlineStatus` | backend/app/repositories/user_repositories.py:76-82 | sets only `is_online` of the record with that id; a missing id changes nothing |
| `UserServices.UserService.constructor` | backend/app/services/user_services.py:12-13 | the service works over the given repository |
| `UserServices.UserService.AuthenticateUser` | backend/app/services/user_services.py:15-36 | no match gives 401 "Incorrect username or password"; an inactive first match gives 400 "Inactive user" whatever the password; an active match with the wrong password gives 401; success returns the first matching record in table order, which is active and whose password equals the supplied one |
| `UserServices.UserService.RegisterUser` | backend/app/services/user_services.py:38-51 | a taken username gives 400 "Username or email already exists" and is checked first; a taken email gives 400 "Email already exists"; both leave the table unchanged; success appends exactly one record with the requested fields, keeping the keys unique |
| `UserServices.UserService.GetUserById` | backend/app/services/user_services.py:53-60 | returns the record with that id, or 404 "User not found" exactly when there is none |
| `UserServices.UserService.GetAllUsers` | backend/app/services/user_services.py:62-64 | returns the list view of the page starting at `skip`, at most `limit` long, in table order |
| `UserServices.UserService.UpdateUser` | backend/app/services/user_services.py:66-80 | an email held by another id gives 400 "Email already registered", even for a missing id; the account's own email is allowed; a missing id gives 404; success patches only the set fields |
| `UserServices.UserService.UpdateUserPassword` | backend/app/services/user_services.py:82-97 | a missing id gives 404; a wrong current password gives 400 "Incorrect current password"; both leave the table unchanged; success sets only that record's password |
| `UserServices.UserService.DeleteUser` | backend/app/services/user_services.py:99-105 | a missing id gives 404 and changes nothing; otherwise exactly that record is removed |
| `UserServices.UserService.DeactivateUser` | backend/app/services/user_services.py:107-114 | a missing id gives 404 and changes nothing; otherwise only that record's `is_active` becomes false |

## Left out

- The chat channel in `backend/app/main.py` is not modelled. It is asynchronous WebSocket I/O stamped with the wall clock. The connection manager it imports is not part of this model.
- The HTTP routes in `backend/app/routers/user_routers.py` are not modelled. They only forward to `UserService`.
- SQLAlchemy sessions are not modelled: commit, refresh and transactions. The timestamp columns `last_seen`, `created_at` and `updated_at` are also dropped, from the record and from both response types.
- A duplicate username or email, which the database would reject at commit, is modelled as a precondition of the repository. The service guards establish these preconditions for the paths that reach the repository.
- Primary keys come from a `nextId` counter that never reuses an id. The real allocation depends on the database engine, and `backend/app/database.py` is not part of this model.
- An explicit JSON `null` for `email` in `UserUpdate` cannot be expressed. The column is NOT NULL, so the database would reject it at commit.
- UserServices.UserService.UpdateUser: requires that the email is not set to the empty string. The guard `if user_data.email` tests truthiness, and `EmailStr` never accepts the empty string, so this input never reaches the service.
- `EmailStr` validation and the Unicode tables behind `str.isalnum` are passed in as functions.
- The normalisation `EmailStr` applies is not modelled. The `email` fields of `UserCreate` and `UserUpdate` hold the address as it stands after validation, and the model stores and compares it verbatim.
- Strings are sequences of Unicode scalar values. A lone surrogate cannot be represented, so the encoding error `encode('utf-8')` would raise for one is not modelled.
- A field that fails validation produces at most one error in the model. The model does not reproduce Pydantic's exact error text.
- `UserResponse.model_validate` re-validates stored rows against the response schema. This is not modelled.
- `get_all_users` takes `skip` and `limit` as naturals. The effect of negative values depends on the database engine.
- Row objects are values. The live ORM object that the repository returns, and its aliasing with the session, are not modelled.
- `.first()` without `ORDER BY` is read as the first record in insertion order.
- Column lengths are not modelled: `String(50)`, `String(100)` and `String(255)`.
