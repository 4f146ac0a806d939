/**
 * Request and response schemas of the user API: which request bodies are
 * accepted, and what a response carries. Python's `str` is a sequence of code
 * points, so a Dafny `string` (a sequence of Unicode scalar values) stands for it
 * and `len` is `|s|`.
 */
module UserSchemas {
  import opened UserModels

  // ---------------------------------------------------------------------------
  // UTF-8 byte length, as measured by `len(v.encode('utf-8'))`

  newtype byte = x: int | 0 <= x < 256

  /** Number of bytes UTF-8 spends on one code point. */
  function Utf8Width(c: char): (n: nat)
    ensures 1 <= n <= 4
    ensures n == 1 <==> (c as int) < 0x80
  {
    if (c as int) < 0x80 then 1
    else if (c as int) < 0x800 then 2
    else if (c as int) < 0x1_0000 then 3
    else 4
  }

  function Utf8Length(s: string): nat {
    if s == [] then 0 else Utf8Width(s[0]) + Utf8Length(s[1..])
  }

  /** The UTF-8 encoding of one code point (RFC 3629, section 3). */
  function EncodeChar(c: char): (b: seq<byte>)
    ensures |b| == Utf8Width(c)
    ensures (c as int) < 0x80 ==> b == [c as int as byte]
    ensures (c as int) >= 0x80 ==> forall k :: 1 <= k < |b| ==> 0x80 <= b[k] < 0xC0
    ensures |b| == 2 ==> 0xC2 <= b[0] <= 0xDF
    ensures |b| == 3 ==> 0xE0 <= b[0] <= 0xEF
    ensures |b| == 4 ==> 0xF0 <= b[0] <= 0xF4
  {
    var n := c as int;
    if n < 0x80 then [n as byte]
    else if n < 0x800 then [(0xC0 + n / 0x40) as byte, (0x80 + n % 0x40) as byte]
    else if n < 0x1_0000 then
      [(0xE0 + n / 0x1000) as byte, (0x80 + (n / 0x40) % 0x40) as byte, (0x80 + n % 0x40) as byte]
    else
      [(0xF0 + n / 0x4_0000) as byte, (0x80 + (n / 0x1000) % 0x40) as byte,
       (0x80 + (n / 0x40) % 0x40) as byte, (0x80 + n % 0x40) as byte]
  }

  function EncodeUtf8(s: string): seq<byte> {
    if s == [] then [] else EncodeChar(s[0]) + EncodeUtf8(s[1..])
  }

  /** Utf8Length is the length of the actual encoding. */
  lemma {:induction false} EncodeUtf8Length(s: string)
    ensures |EncodeUtf8(s)| == Utf8Length(s)
  {
    if s != [] {
      EncodeUtf8Length(s[1..]);
    }
  }

  /** Every code point takes at least one and at most four bytes. */
  lemma {:induction false} Utf8LengthBounds(s: string)
    ensures |s| <= Utf8Length(s) <= 4 * |s|
  {
    if s != [] {
      Utf8LengthBounds(s[1..]);
    }
  }

  /** On ASCII text the byte count and the character count agree. */
  lemma {:induction false} Utf8LengthAscii(s: string)
    requires forall i :: 0 <= i < |s| ==> (s[i] as int) < 0x80
    ensures Utf8Length(s) == |s|
  {
    if s != [] {
      Utf8LengthAscii(s[1..]);
    }
  }

  // ---------------------------------------------------------------------------
  // Field constraints

  const UsernameMinLength: nat := 5
  const UsernameMaxLength: nat := 25
  const PasswordMinLength: nat := 10
  const PasswordMaxLength: nat := 128
  const PasswordMaxBytes: nat := 128
  const BioMaxLength: nat := 1000

  /** `Field(min_length=lo, max_length=hi)` on a string. */
  predicate LengthBetween(s: string, lo: nat, hi: nat) {
    lo <= |s| <= hi
  }

  /**
   * Python's `str.isalnum`: true when the string is non-empty and every code point
   * is alphanumeric. The per-code-point classification (Unicode tables) is a parameter.
   */
  predicate IsAlnum(s: string, alnumChar: char -> bool) {
    |s| > 0 && forall i :: 0 <= i < |s| ==> alnumChar(s[i])
  }

  /** `UserCreate.username`: the length bounds, then the `deny_special_characters` validator. */
  predicate ValidNewUsername(s: string, alnumChar: char -> bool) {
    LengthBetween(s, UsernameMinLength, UsernameMaxLength) && IsAlnum(s, alnumChar)
  }

  /** A password field of `UserCreate` or `UserUpdatePassword`: length bounds, then the byte cap. */
  predicate ValidPassword(s: string) {
    LengthBetween(s, PasswordMinLength, PasswordMaxLength) && Utf8Length(s) <= PasswordMaxBytes
  }

  /** `bio: Optional[str] = Field(None, max_length=1000)`. */
  predicate ValidBio(bio: Option<string>) {
    bio.None? || |bio.value| <= BioMaxLength
  }

  /** The byte cap already implies the character cap, so only the lower length bound adds anything. */
  lemma ValidPasswordByBytes(s: string)
    ensures ValidPassword(s) <==> PasswordMinLength <= |s| && Utf8Length(s) <= PasswordMaxBytes
  {
    Utf8LengthBounds(s);
  }

  /** A password of at most 32 code points never reaches the byte cap. */
  lemma ShortPasswordFitsBytes(s: string)
    requires |s| <= PasswordMaxBytes / 4
    ensures Utf8Length(s) <= PasswordMaxBytes
  {
    Utf8LengthBounds(s);
  }

  /** For an ASCII password the byte cap is exactly the character cap. */
  lemma AsciiPasswordValid(s: string)
    requires forall i :: 0 <= i < |s| ==> (s[i] as int) < 0x80
    ensures ValidPassword(s) <==> LengthBetween(s, PasswordMinLength, PasswordMaxLength)
  {
    Utf8LengthAscii(s);
  }

  /** The byte cap is stricter: 40 four-byte code points are within 128 characters and still rejected. */
  lemma WidePasswordRejected(s: string)
    requires |s| == 40
    requires forall i :: 0 <= i < |s| ==> (s[i] as int) >= 0x1_0000
    ensures LengthBetween(s, PasswordMinLength, PasswordMaxLength)
    ensures !ValidPassword(s)
  {
    WideUtf8Length(s);
  }

  lemma {:induction false} WideUtf8Length(s: string)
    requires forall i :: 0 <= i < |s| ==> (s[i] as int) >= 0x1_0000
    ensures Utf8Length(s) == 4 * |s|
  {
    if s != [] {
      WideUtf8Length(s[1..]);
    }
  }

  // ---------------------------------------------------------------------------
  // Request schemas

  datatype UserCreate = UserCreate(
    username: string,
    email: string,
    full_name: Option<string>,
    bio: Option<string>,
    avatar_url: Option<string>,
    password: string)

  /**
   * Whether a `UserCreate` body is accepted. `EmailStr` validation is a parameter,
   * as is the per-code-point alphanumeric test.
   */
  predicate UserCreateValid(c: UserCreate, alnumChar: char -> bool, isEmail: string -> bool) {
    && ValidNewUsername(c.username, alnumChar)
    && isEmail(c.email)
    && ValidBio(c.bio)
    && ValidPassword(c.password)
  }

  /**
   * A new username is refused when its length is outside 5..25 or when it holds a
   * code point that is not alphanumeric (the empty name included).
   */
  lemma UsernameRejections(c: UserCreate, alnumChar: char -> bool, isEmail: string -> bool)
    ensures !LengthBetween(c.username, UsernameMinLength, UsernameMaxLength) ==> !UserCreateValid(c, alnumChar, isEmail)
    ensures (exists i :: 0 <= i < |c.username| && !alnumChar(c.username[i])) ==> !UserCreateValid(c, alnumChar, isEmail)
    ensures UserCreateValid(c, alnumChar, isEmail) ==>
              UsernameMinLength <= |c.username| <= UsernameMaxLength
              && forall i :: 0 <= i < |c.username| ==> alnumChar(c.username[i])
  {
  }

  datatype UserLogin = UserLogin(username: string, password: string)

  /** `UserLogin` only bounds lengths: no alphanumeric test and no byte cap. */
  predicate UserLoginValid(l: UserLogin) {
    && LengthBetween(l.username, UsernameMinLength, UsernameMaxLength)
    && LengthBetween(l.password, PasswordMinLength, PasswordMaxLength)
  }

  /** Any credentials accepted at registration are accepted again at login. */
  lemma RegisteredCredentialsPassLogin(c: UserCreate, alnumChar: char -> bool, isEmail: string -> bool)
    requires UserCreateValid(c, alnumChar, isEmail)
    ensures UserLoginValid(UserLogin(c.username, c.password))
  {
  }

  /** Login accepts credentials that registration would refuse: a 40-character emoji password. */
  lemma LoginAcceptsWidePassword(name: string, pw: string)
    requires LengthBetween(name, UsernameMinLength, UsernameMaxLength)
    requires |pw| == 40 && forall i :: 0 <= i < |pw| ==> (pw[i] as int) >= 0x1_0000
    ensures UserLoginValid(UserLogin(name, pw))
    ensures !ValidPassword(pw)
  {
    WidePasswordRejected(pw);
  }

  /** A field of a request body: either left out of the JSON, or set (possibly to null). */
  datatype Patch<+T> = Unset | Set(value: T)

  /**
   * `UserUpdate`. `full_name`, `bio` and `avatar_url` may be set to null; `email` is
   * set to an address or left out (the column is NOT NULL).
   */
  datatype UserUpdate = UserUpdate(
    email: Patch<string>,
    full_name: Patch<Option<string>>,
    bio: Patch<Option<string>>,
    avatar_url: Patch<Option<string>>)

  const EmptyUpdate: UserUpdate := UserUpdate(Unset, Unset, Unset, Unset)

  predicate UserUpdateValid(u: UserUpdate, isEmail: string -> bool) {
    && (u.email.Set? ==> isEmail(u.email.value))
    && (u.bio.Set? ==> ValidBio(u.bio.value))
  }

  /** One entry of `model_dump(exclude_unset=True)`: a field name with its value. */
  datatype FieldValue =
    | EmailField(email: string)
    | FullNameField(full_name: Option<string>)
    | BioField(bio: Option<string>)
    | AvatarUrlField(avatar_url: Option<string>)

  function Entry<T>(p: Patch<T>, field: T -> FieldValue): seq<FieldValue> {
    if p.Set? then [field(p.value)] else []
  }

  /** `model_dump(exclude_unset=True)`: the explicitly set fields, in declaration order. */
  function UpdateData(u: UserUpdate): (fields: seq<FieldValue>)
    ensures |fields| <= 4
  {
    Entry(u.email, s => EmailField(s))
    + Entry(u.full_name, s => FullNameField(s))
    + Entry(u.bio, s => BioField(s))
    + Entry(u.avatar_url, s => AvatarUrlField(s))
  }

  /** Every `UserUpdate` field is optional: the empty body is valid and sets nothing. */
  lemma EmptyUpdateAccepted(isEmail: string -> bool)
    ensures UserUpdateValid(EmptyUpdate, isEmail)
    ensures UpdateData(EmptyUpdate) == []
  {
  }

  /** The bio cap is the same in `UserCreate` and `UserUpdate`; a null bio is always allowed. */
  lemma BioCap(c: UserCreate, u: UserUpdate, alnumChar: char -> bool, isEmail: string -> bool)
    ensures UserCreateValid(c, alnumChar, isEmail) && c.bio.Some? ==> |c.bio.value| <= BioMaxLength
    ensures UserUpdateValid(u, isEmail) && u.bio.Set? && u.bio.value.Some? ==> |u.bio.value.value| <= BioMaxLength
    ensures c.bio.None? ==> ValidBio(c.bio)
  {
  }

  /** A field appears in the dump exactly when the request set it. */
  lemma UpdateDataFields(u: UserUpdate)
    ensures (exists k :: 0 <= k < |UpdateData(u)| && UpdateData(u)[k].EmailField?) <==> u.email.Set?
    ensures (exists k :: 0 <= k < |UpdateData(u)| && UpdateData(u)[k].FullNameField?) <==> u.full_name.Set?
    ensures (exists k :: 0 <= k < |UpdateData(u)| && UpdateData(u)[k].BioField?) <==> u.bio.Set?
    ensures (exists k :: 0 <= k < |UpdateData(u)| && UpdateData(u)[k].AvatarUrlField?) <==> u.avatar_url.Set?
    ensures |UpdateData(u)| == (if u.email.Set? then 1 else 0) + (if u.full_name.Set? then 1 else 0)
                               + (if u.bio.Set? then 1 else 0) + (if u.avatar_url.Set? then 1 else 0)
  {
    var d := UpdateData(u);
    if u.email.Set? {
      assert d[0].EmailField?;
    }
    if u.full_name.Set? {
      var k := if u.email.Set? then 1 else 0;
      assert d[k].FullNameField?;
    }
    if u.bio.Set? {
      var k := (if u.email.Set? then 1 else 0) + (if u.full_name.Set? then 1 else 0);
      assert d[k].BioField?;
    }
    if u.avatar_url.Set? {
      var k := (if u.email.Set? then 1 else 0) + (if u.full_name.Set? then 1 else 0) + (if u.bio.Set? then 1 else 0);
      assert d[k].AvatarUrlField?;
    }
  }

  datatype UserUpdatePassword = UserUpdatePassword(
    current_password: string,
    new_password: string,
    confirm_password: string)

  /** A validation error, named after the field (or the validator) that raised it. */
  datatype SchemaError =
    | TooShort(field: string)
    | TooLong(field: string)
    | TooManyBytes(field: string)
    | PasswordsDoNotMatch
    | SameAsCurrentPassword

  /** The `min_length`/`max_length` check of a password field. */
  function PasswordBoundsError(field: string, v: string): Option<SchemaError> {
    if |v| < PasswordMinLength then Some(TooShort(field))
    else if |v| > PasswordMaxLength then Some(TooLong(field))
    else None
  }

  /** The `validate_password_length` validator. */
  function PasswordBytesError(field: string, v: string): Option<SchemaError> {
    if Utf8Length(v) > PasswordMaxBytes then Some(TooManyBytes(field)) else None
  }

  /** A field stops at its first failing step: constraints, then its validators in order. */
  function FirstError(a: Option<SchemaError>, b: Option<SchemaError>, c: Option<SchemaError>): Option<SchemaError> {
    if a.Some? then a else if b.Some? then b else c
  }

  function Errors(e: Option<SchemaError>): seq<SchemaError> {
    if e.Some? then [e.value] else []
  }

  /**
   * Validation of a `UserUpdatePassword` body, field by field in declaration order.
   * A cross-field validator sees an earlier field only if that field passed its
   * own validation (`'new_password' in info.data`).
   */
  function PasswordChangeErrors(p: UserUpdatePassword): seq<SchemaError> {
    var current := FirstError(
      PasswordBoundsError("current_password", p.current_password),
      None,
      PasswordBytesError("current_password", p.current_password));
    var next := FirstError(
      PasswordBoundsError("new_password", p.new_password),
      if current.None? && p.new_password == p.current_password then Some(SameAsCurrentPassword) else None,
      PasswordBytesError("new_password", p.new_password));
    var confirm := FirstError(
      PasswordBoundsError("confirm_password", p.confirm_password),
      if next.None? && p.confirm_password != p.new_password then Some(PasswordsDoNotMatch) else None,
      PasswordBytesError("confirm_password", p.confirm_password));
    Errors(current) + Errors(next) + Errors(confirm)
  }

  /**
   * A `UserUpdatePassword` body is accepted exactly when all three passwords are
   * valid, confirm equals new and new differs from current: the `info.data` guards
   * never let a mismatch through.
   */
  lemma PasswordChangeAccepted(p: UserUpdatePassword)
    ensures PasswordChangeErrors(p) == [] <==>
      && ValidPassword(p.current_password)
      && ValidPassword(p.new_password)
      && ValidPassword(p.confirm_password)
      && p.confirm_password == p.new_password
      && p.new_password != p.current_password
  {
  }

  /** A body whose confirmation differs from the new password is always rejected. */
  lemma MismatchRejected(p: UserUpdatePassword)
    requires p.confirm_password != p.new_password
    ensures PasswordChangeErrors(p) != []
  {
    PasswordChangeAccepted(p);
  }

  /** A body that reuses the current password is always rejected. */
  lemma SamePasswordRejected(p: UserUpdatePassword)
    requires p.new_password == p.current_password
    ensures PasswordChangeErrors(p) != []
  {
    PasswordChangeAccepted(p);
  }

  // ---------------------------------------------------------------------------
  // Response schemas

  /** `UserResponse` without the timestamp fields: every column but the password. */
  datatype UserResponse = UserResponse(
    id: int,
    username: string,
    email: string,
    full_name: Option<string>,
    bio: Option<string>,
    avatar_url: Option<string>,
    is_active: bool,
    is_online: bool)

  function ToResponse(u: User): UserResponse {
    UserResponse(u.id, u.username, u.email, u.full_name, u.bio, u.avatar_url, u.is_active, u.is_online)
  }

  /** `UserListResponse` without `last_seen`. */
  datatype UserListResponse = UserListResponse(
    id: int,
    username: string,
    full_name: Option<string>,
    avatar_url: Option<string>,
    is_online: bool)

  function ToListResponse(u: User): UserListResponse {
    UserListResponse(u.id, u.username, u.full_name, u.avatar_url, u.is_online)
  }
}
