/** The backend's User entity and its Role enum. A field that is null in
    Java is None here. The bean-validation constraints are the ones the
    persistence layer checks before a user is written. */
module UserModel {
  import opened Wrappers
  import Text

  datatype Role = STUDENT | ADMIN | GUARDIAN

  /** Role.name(), which is also its toString(): a non-empty word of
      upper-case ASCII letters. */
  function RoleName(r: Role): (n: string)
    ensures |n| > 0 && forall i :: 0 <= i < |n| ==> 'A' <= n[i] <= 'Z'
  {
    match r
    case STUDENT => "STUDENT"
    case ADMIN => "ADMIN"
    case GUARDIAN => "GUARDIAN"
  }

  /** Role.valueOf(s): exactly one of the three names, case included;
      anything else throws (None). */
  function RoleValueOf(s: string): (r: Option<Role>)
    ensures r.Some? <==> s == "STUDENT" || s == "ADMIN" || s == "GUARDIAN"
    ensures r.Some? ==> RoleName(r.value) == s
  {
    if s == "STUDENT" then Some(STUDENT)
    else if s == "ADMIN" then Some(ADMIN)
    else if s == "GUARDIAN" then Some(GUARDIAN)
    else None
  }

  /** Every role is found again by its name, and the three names differ. */
  lemma RoleNameRoundTrip(r: Role, q: Role)
    ensures RoleValueOf(RoleName(r)) == Some(r)
    ensures RoleName(r) == RoleName(q) ==> r == q
  {
  }

  datatype User = User(
    id: Option<int>,
    email: Option<string>,
    password: Option<string>,
    name: Option<string>,
    role: Role)

  /** new User(): every field null but the role, which starts as STUDENT. */
  function NewUser(): (u: User)
    ensures u.id.None? && u.email.None? && u.password.None? && u.name.None?
    ensures u.role == STUDENT
  {
    User(None, None, None, None, STUDENT)
  }

  /** new User(name, email, password). */
  function NewUserWith(name: Option<string>, email: Option<string>, password: Option<string>): (u: User)
    ensures u.name == name && u.email == email && u.password == password
    ensures u.id.None? && u.role == STUDENT
  {
    User(None, email, password, name, STUDENT)
  }

  const PasswordMinLength: nat := 6

  /** @NotBlank: not null, and something other than whitespace. */
  predicate NotBlank(s: Option<string>)
  {
    s.Some? && !Text.IsBlank(s.value)
  }

  /** The entity's constraints: email present and well formed (the @Email
      check is the emailFormat parameter), name present, password present
      and at least six UTF-16 units long, so at least three characters. */
  predicate Constraints(u: User, emailFormat: string -> bool): (c: bool)
    ensures c ==> u.email.Some? && |u.email.value| > 0 && u.name.Some? && |u.name.value| > 0
    ensures c ==> u.password.Some? && |u.password.value| >= 3
  {
    && NotBlank(u.email) && emailFormat(u.email.value)
    && NotBlank(u.name)
    && NotBlank(u.password) && Text.Utf16Length(u.password.value) >= PasswordMinLength
  }

  /** Neither the id nor the role is constrained. */
  lemma ConstraintsIgnoreIdAndRole(u: User, id: Option<int>, role: Role, emailFormat: string -> bool)
    ensures Constraints(u.(id := id, role := role), emailFormat) == Constraints(u, emailFormat)
  {
  }

  /** A freshly constructed user never passes validation: it has no email. */
  lemma NewUserInvalid(emailFormat: string -> bool)
    ensures !Constraints(NewUser(), emailFormat)
  {
  }

  /** The three-argument constructor passes validation exactly when its
      arguments do. */
  lemma NewUserWithConstraints(name: Option<string>, email: Option<string>, password: Option<string>, emailFormat: string -> bool)
    ensures Constraints(NewUserWith(name, email, password), emailFormat) <==>
      NotBlank(email) && emailFormat(email.value) && NotBlank(name)
      && NotBlank(password) && Text.Utf16Length(password.value) >= 6
  {
  }
}
