/** The authentication endpoints. register checks for a taken email (400),
    builds the user with the encoded password and the exact role name or
    STUDENT, saves it and answers with a token and the saved user; any
    exception on the way is a 500 "Registration failed" with nothing saved.
    login is a stub that accepts every request. */
module AuthController {
  import opened Wrappers
  import Text
  import JavaString
  import UserModel
  import UserRepository
  import UserService
  import JwtUtil

  /** A JSON request body; an absent key reads as null. */
  type Request = map<string, string>

  function Field(request: Request, name: string): Option<string>
  {
    if name in request then Some(request[name]) else None
  }

  /** The "user" object of a reply. */
  datatype UserView = UserView(id: int, name: string, email: string, role: string)

  /** A reply: the HTTP status and the body's fields. */
  datatype Reply = Reply(status: int, success: bool, message: string, token: Option<string>, user: Option<UserView>)

  const EmailExists: string := "Email already exists"
  const RegistrationFailed: string := "Registration failed"
  const RegistrationSuccessful: string := "Registration successful"
  const LoginSuccessful: string := "Login successful"
  const StubTokenPrefix: string := "working-token-"
  const StubUserName: string := "Database User"

  const DuplicateReply: Reply := Reply(400, false, EmailExists, None, None)
  const FailureReply: Reply := Reply(500, false, RegistrationFailed, None, None)

  /** The role register assigns: STUDENT for a null role, otherwise the
      exact constant named, with no change of case. */
  function RequestedRole(role: Option<string>): (r: Option<UserModel.Role>)
    ensures role.None? ==> r == Some(UserModel.STUDENT)
    ensures role.Some? ==> r == UserModel.RoleValueOf(role.value)
  {
    if role.None? then Some(UserModel.STUDENT) else UserModel.RoleValueOf(role.value)
  }

  /** The user register builds before saving, or None when building it
      throws: a null password makes the encoder throw, an unknown role name
      makes Role.valueOf throw. */
  function Candidate(request: Request, encode: string -> string): (u: Option<UserModel.User>)
    ensures u.Some? <==> Field(request, "password").Some? && RequestedRole(Field(request, "role")).Some?
    ensures u.Some? ==>
      && u.value.id.None?
      && u.value.email == Field(request, "email")
      && u.value.name == Field(request, "name")
      && u.value.password == Some(encode(Field(request, "password").value))
      && u.value.role == RequestedRole(Field(request, "role")).value
  {
    var password := Field(request, "password");
    var role := RequestedRole(Field(request, "role"));
    if password.None? || role.None? then None
    else Some(UserModel.User(None, Field(request, "email"), Some(encode(password.value)), Field(request, "name"), role.value))
  }

  /** The reply's view of a saved user. */
  function View(saved: UserModel.User): UserView
    requires saved.id.Some? && saved.name.Some? && saved.email.Some?
  {
    UserView(saved.id.value, saved.name.value, saved.email.value, UserModel.RoleName(saved.role))
  }

  class AuthController {
    const repo: UserRepository.UserRepository

    constructor (repo: UserRepository.UserRepository)
      ensures this.repo == repo
    {
      this.repo := repo;
    }

    /** POST /api/auth/register. now is the clock reading the token is
        generated with; encode is the password encoder. */
    method Register(request: Request, encode: string -> string, now: int) returns (reply: Reply)
      requires repo.Valid()
      modifies repo
      ensures repo.Valid()
      ensures old(repo.FindByEmail(Field(request, "email"))).Some? <==> reply == DuplicateReply
      ensures reply.status == 200 <==>
        && old(repo.FindByEmail(Field(request, "email"))).None?
        && Candidate(request, encode).Some?
        && UserModel.Constraints(Candidate(request, encode).value, repo.emailFormat)
      ensures reply.status != 200 ==>
        (reply == DuplicateReply || reply == FailureReply) && repo.rows == old(repo.rows) && repo.nextId == old(repo.nextId)
      ensures reply.status == 200 ==>
        var saved := Candidate(request, encode).value.(id := Some(old(repo.nextId)));
        && repo.rows == old(repo.rows)[old(repo.nextId) := saved]
        && repo.nextId == old(repo.nextId) + 1
        && reply == Reply(200, true, RegistrationSuccessful,
             Some(JwtUtil.GenerateToken(Field(request, "email").value, now)), Some(View(saved)))
    {
      var email := Field(request, "email");
      if repo.FindByEmail(email).Some? {
        return DuplicateReply;
      }
      var user := Candidate(request, encode);
      if user.None? {
        return FailureReply;
      }
      assert repo.SlotFor(user.value) == repo.nextId;
      assert UserRepository.EmailFree(repo.rows, user.value.email, repo.nextId);
      var saved := repo.Save(user.value);
      if saved.Err? {
        return FailureReply;
      }
      var token := JwtUtil.GenerateToken(email.value, now);
      return Reply(200, true, RegistrationSuccessful, Some(token), Some(View(saved.value)));
    }

    /** POST /api/auth/login: success for any email and password, with a
        token made of the email's hashCode; a missing email throws (None). */
    function Login(request: Request): (reply: Option<Reply>)
      ensures reply.Some? <==> Field(request, "email").Some?
      ensures reply.Some? ==>
        && reply.value.status == 200 && reply.value.success
        && reply.value.user == Some(UserView(1, StubUserName, Field(request, "email").value, "STUDENT"))
        && reply.value.token == Some(StubTokenPrefix + Text.Decimal(JavaString.HashCode(Field(request, "email").value)))
    {
      var email := Field(request, "email");
      if email.None? then None
      else Some(Reply(200, true, LoginSuccessful,
        Some(StubTokenPrefix + Text.Decimal(JavaString.HashCode(email.value))),
        Some(UserView(1, StubUserName, email.value, UserModel.RoleName(UserModel.STUDENT)))))
    }
  }

  /** The stub login never looks at the password. */
  lemma LoginIgnoresPassword(c: AuthController, request: Request, password: string)
    ensures c.Login(request["password" := password]) == c.Login(request)
  {
    assert Field(request["password" := password], "email") == Field(request, "email");
  }

  /** A lower-case role name is not a Role constant here: the candidate
      user is never built, so by Register's contract a request with a free
      email gets the generic 500 reply, while a taken email is answered with
      the 400 duplicate reply first. */
  lemma LowerCaseRoleRefused(request: Request, encode: string -> string)
    requires Field(request, "role") == Some("admin")
    ensures Candidate(request, encode).None?
  {
  }

  /** The length rule is checked on what is stored, the encoded password:
      a raw password of any length passes it when its encoding is six units
      or longer. */
  lemma LengthRuleSeesEncoding(request: Request, encode: string -> string, emailFormat: string -> bool)
    requires Candidate(request, encode).Some?
    ensures var raw := Field(request, "password").value;
      UserModel.Constraints(Candidate(request, encode).value, emailFormat) <==>
        && UserModel.NotBlank(Field(request, "email")) && emailFormat(Field(request, "email").value)
        && UserModel.NotBlank(Field(request, "name"))
        && !Text.IsBlank(encode(raw)) && Text.Utf16Length(encode(raw)) >= UserModel.PasswordMinLength
  {
  }

  /** A user the controller registered cannot log in through the service
      with the password typed at registration unless the encoder left it
      unchanged: the service compares the typed password with the stored,
      encoded one. */
  lemma ServiceLoginSeesEncoding(service: UserService.UserService, id: int, raw: string, encode: string -> string)
    requires service.repo.Valid()
    requires id in service.repo.rows && service.repo.rows[id].password == Some(encode(raw))
    requires encode(raw) != raw
    ensures service.Login(service.repo.rows[id].email, Some(raw)) == Err(UserService.InvalidPassword)
  {
    UserRepository.FindByEmailFindsRow(service.repo, id);
  }

  /** After a successful registration the token names the registered email:
      when that email holds no ':' it is what the token extracts to. */
  lemma RegisteredTokenNamesUser(reply: Reply, request: Request, now: int)
    requires Field(request, "email").Some? && ':' !in Field(request, "email").value
    requires reply.token == Some(JwtUtil.GenerateToken(Field(request, "email").value, now))
    ensures JwtUtil.ExtractEmail(reply.token.value) == Field(request, "email").value
    ensures JwtUtil.IsTokenValid(reply.token.value)
  {
    JwtUtil.ExtractGenerated(Field(request, "email").value, now);
    JwtUtil.GeneratedIsValid(Field(request, "email").value, now);
  }
}
