/** The backend user service over the repository: registration refuses a
    taken email, login tells an unknown email from a wrong password, the
    lookups fail with "User not found", and a role update parses the
    upper-cased role name and changes nothing but the role. A thrown
    RuntimeException is an Err carrying its message. */
module UserService {
  import opened Wrappers
  import Text
  import UserModel
  import UserRepository

  const EmailExists: string := "Email already exists"
  const UserNotFound: string := "User not found"
  const InvalidPassword: string := "Invalid password"
  const NullRole: string := "NullPointerException"
  const EnumPrefix: string := "No enum constant com.skillforge.model.User.Role."

  /** Role.valueOf(role.toUpperCase()), or the exception it throws. */
  function ParseRole(role: Option<string>): (r: Result<UserModel.Role, string>)
    ensures role.None? ==> r == Err(NullRole)
    ensures role.Some? ==> (r.Ok? <==> UserModel.RoleValueOf(Text.ToUpper(role.value)).Some?)
    ensures r.Ok? ==> UserModel.RoleName(r.value) == Text.ToUpper(role.value)
    ensures role.Some? && r.Err? ==> r.error == EnumPrefix + Text.ToUpper(role.value)
  {
    if role.None? then Err(NullRole)
    else
      var upper := Text.ToUpper(role.value);
      var parsed := UserModel.RoleValueOf(upper);
      if parsed.Some? then Ok(parsed.value) else Err(EnumPrefix + upper)
  }

  /** Each role's name parses back to it in any case of its letters. */
  lemma ParseRoleAnyCase(r: UserModel.Role, typed: string)
    requires Text.ToUpper(typed) == UserModel.RoleName(r)
    ensures ParseRole(Some(typed)) == Ok(r)
  {
  }

  /** "admin" upper-cases to ADMIN. */
  lemma ParseAdmin()
    ensures ParseRole(Some("admin")) == Ok(UserModel.ADMIN)
  {
    Text.ToUpperAsciiIs("admin", "ADMIN");
  }

  /** A role name spelled with the ligature U+FB06 for "st" upper-cases to
      STUDENT. */
  lemma ParseLigatureStudent()
    ensures ParseRole(Some("\U{FB06}udent")) == Ok(UserModel.STUDENT)
  {
    var typed := "\U{FB06}udent";
    assert typed[1..] == "udent";
    Text.ToUpperAsciiIs("udent", "UDENT");
    assert Text.ToUpper(typed) == "ST" + "UDENT";
  }

  /** A name that is no role is refused with the enum's message. */
  lemma ParseUnknownRole()
    ensures ParseRole(Some("tutor")) == Err(EnumPrefix + "TUTOR")
  {
    Text.ToUpperAsciiIs("tutor", "TUTOR");
  }

  class UserService {
    const repo: UserRepository.UserRepository

    constructor (repo: UserRepository.UserRepository)
      ensures this.repo == repo
    {
      this.repo := repo;
    }

    /** register(user). */
    method Register(user: UserModel.User) returns (r: Result<UserModel.User, string>)
      requires repo.Valid()
      modifies repo
      ensures repo.Valid()
      ensures old(repo.ExistsByEmail(user.email)) ==>
        r == Err(EmailExists) && repo.rows == old(repo.rows) && repo.nextId == old(repo.nextId)
      ensures !old(repo.ExistsByEmail(user.email)) ==> repo.SaveEffect(user, r)
    {
      if repo.ExistsByEmail(user.email) {
        return Err(EmailExists);
      }
      r := repo.Save(user);
    }

    /** login(email, password): the stored password must equal the given
        one exactly. */
    function Login(email: Option<string>, password: Option<string>): (r: Result<UserModel.User, string>)
      reads repo
      requires repo.Valid()
      ensures repo.FindByEmail(email).None? <==> r == Err(UserNotFound)
      ensures r.Ok? <==> repo.FindByEmail(email).Some? && repo.FindByEmail(email).value.password == password
      ensures r.Ok? ==> r.value == repo.FindByEmail(email).value
      ensures r.Err? ==> r.error == UserNotFound || r.error == InvalidPassword
    {
      var user := repo.FindByEmail(email);
      if user.None? then Err(UserNotFound)
      else if user.value.password != password then Err(InvalidPassword)
      else Ok(user.value)
    }

    /** getUserById(id). */
    function GetUserById(id: int): (r: Result<UserModel.User, string>)
      reads repo
      ensures r.Ok? <==> id in repo.rows
      ensures r.Ok? ==> r.value == repo.rows[id]
      ensures r.Err? ==> r.error == UserNotFound
    {
      var user := repo.FindById(id);
      if user.Some? then Ok(user.value) else Err(UserNotFound)
    }

    /** getUserByEmail(email). */
    function GetUserByEmail(email: Option<string>): (r: Result<UserModel.User, string>)
      reads repo
      requires repo.Valid()
      ensures r.Ok? <==> email.Some? && exists id :: id in repo.rows && repo.rows[id].email == email
      ensures r.Ok? ==> r.value.email == email && r.value in repo.rows.Values
      ensures r.Err? ==> r.error == UserNotFound
    {
      var user := repo.FindByEmail(email);
      if user.Some? then Ok(user.value) else Err(UserNotFound)
    }

    /** updateUserRole(id, role): only the role of that one row changes. */
    method UpdateUserRole(id: int, role: Option<string>) returns (r: Result<UserModel.User, string>)
      requires repo.Valid()
      modifies repo
      ensures repo.Valid()
      ensures id !in old(repo.rows) ==> r == Err(UserNotFound)
      ensures id in old(repo.rows) && ParseRole(role).Err? ==> r == Err(ParseRole(role).error)
      ensures r.Err? ==> repo.rows == old(repo.rows) && repo.nextId == old(repo.nextId)
      ensures r.Ok? <==> id in old(repo.rows) && ParseRole(role).Ok?
      ensures r.Ok? ==>
        && r.value == old(repo.rows)[id].(role := ParseRole(role).value)
        && repo.rows == old(repo.rows)[id := r.value]
        && repo.nextId == old(repo.nextId)
    {
      var found := GetUserById(id);
      if found.Err? {
        return found;
      }
      var parsed := ParseRole(role);
      if parsed.Err? {
        return Err(parsed.error);
      }
      var user := found.value.(role := parsed.value);
      assert UserRepository.EmailFree(repo.rows, user.email, id);
      r := repo.Save(user);
    }
  }
}
