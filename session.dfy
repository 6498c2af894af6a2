/** The client's session slot and its REST helpers. Browser storage is a
    key/value store; the two keys this client writes are 'token' and 'user'.
    login and register either throw, leaving storage as it was, or return
    data.user, storing the token and the user together when the response
    carries a token. logout removes both. Every other call turns the server's
    {success, data, message} envelope into its payload or a thrown error. */
module Session {
  import opened Wrappers
  import Json

  /** What JSON.stringify(data.user) leaves under 'user': the text of a JSON
      value, or, when data.user is undefined, the text "undefined" (setItem
      turns the undefined that JSON.stringify returns into that text). */
  datatype StoredUser = UndefinedText | JsonText(value: Json.Value)

  /** The storage entries under 'token' and 'user'; None is an absent key. */
  datatype SessionSlots = SessionSlots(token: Option<string>, user: Option<StoredUser>)

  /** The session invariant: a token and a user are stored together or not
      at all. */
  predicate Paired(s: SessionSlots)
  {
    s.token.Some? <==> s.user.Some?
  }

  /** JavaScript truthiness of localStorage.getItem('token') or data.token:
      null and the empty string are false. */
  predicate Truthy(token: Option<string>)
  {
    token.Some? && token.value != ""
  }

  const BearerPrefix: string := "Bearer "

  /** getAuthHeaders(): Content-Type always, Authorization only with a
      truthy token. */
  function AuthHeaders(token: Option<string>): (h: map<string, string>)
    ensures "Content-Type" in h && h["Content-Type"] == "application/json"
    ensures "Authorization" in h <==> Truthy(token)
    ensures h.Keys <= {"Content-Type", "Authorization"}
  {
    var base := map["Content-Type" := "application/json"];
    if Truthy(token) then base["Authorization" := BearerPrefix + token.value] else base
  }

  /** The credential a server reads back from an Authorization header. */
  function BearerCredential(header: string): Option<string>
  {
    if |header| >= |BearerPrefix| && header[..|BearerPrefix|] == BearerPrefix
    then Some(header[|BearerPrefix|..]) else None
  }

  /** The header carries exactly the stored token. */
  lemma HeaderCarriesToken(token: Option<string>)
    requires Truthy(token)
    ensures BearerCredential(AuthHeaders(token)["Authorization"]) == Some(token.value)
  {
    var v := BearerPrefix + token.value;
    assert v[..|BearerPrefix|] == BearerPrefix;
    assert v[|BearerPrefix|..] == token.value;
  }

  /** The body of /auth/login and /auth/register responses; None fields are
      absent (undefined). */
  datatype AuthEnvelope = AuthEnvelope(
    success: bool,
    token: Option<string>,
    user: Option<Json.Value>,
    message: Option<string>)

  const LoginFailed: string := "Login failed"
  const RegistrationFailed: string := "Registration failed"

  /** data.message || fallback. */
  function ErrorMessage(message: Option<string>, fallback: string): (m: string)
    ensures message.Some? && message.value != "" ==> m == message.value
    ensures message.None? || message.value == "" ==> m == fallback
  {
    if message.Some? && message.value != "" then message.value else fallback
  }

  /** What login and register return: data.user, or the error they throw. */
  function AuthResult(responseOk: bool, data: AuthEnvelope, fallback: string): Result<Option<Json.Value>, string>
  {
    if !responseOk || !data.success then Err(ErrorMessage(data.message, fallback)) else Ok(data.user)
  }

  /** What login and register leave in storage: the slots change only on
      an accepted response that carries a token, and then hold that token and
      a user; a paired session stays paired. */
  function AfterAuth(s: SessionSlots, responseOk: bool, data: AuthEnvelope): (r: SessionSlots)
    ensures r != s ==> responseOk && data.success && Truthy(data.token)
    ensures responseOk && data.success && Truthy(data.token) ==> r.token == data.token && r.user.Some?
    ensures Paired(s) ==> Paired(r)
  {
    if !responseOk || !data.success || !Truthy(data.token) then s
    else SessionSlots(data.token, Some(Stringify(data.user)))
  }

  function Stringify(user: Option<Json.Value>): StoredUser
  {
    if user.Some? then JsonText(user.value) else UndefinedText
  }

  /** What logout leaves in storage: no token to send and no current
      user, whatever was there before. */
  function AfterLogout(s: SessionSlots): (r: SessionSlots)
    ensures Paired(r) && !Truthy(r.token) && r.user.None?
    ensures CurrentUser(r) == Ok(Json.JNull)
  {
    SessionSlots(None, None)
  }

  const UnparsableUser: string := "SyntaxError: \"undefined\" is not valid JSON"

  /** getCurrentUser(): JSON.parse of the stored user, null (JNull) when
      nothing is stored; parsing the text "undefined" throws. */
  function CurrentUser(s: SessionSlots): (r: Result<Json.Value, string>)
    ensures r.Err? <==> s.user == Some(UndefinedText)
    ensures r.Err? ==> r.error == UnparsableUser
    ensures s.user.None? ==> r == Ok(Json.JNull)
    ensures s.user.Some? && s.user.value.JsonText? ==> r == Ok(s.user.value.value)
  {
    match s.user
    case None => Ok(Json.JNull)
    case Some(UndefinedText) => Err(UnparsableUser)
    case Some(JsonText(v)) => Ok(v)
  }

  /** A refused or failed call throws the server's message, or the fallback
      when there is none, and storage is untouched. */
  lemma AuthFailureKeepsStorage(s: SessionSlots, responseOk: bool, data: AuthEnvelope, fallback: string)
    requires !responseOk || !data.success
    ensures AuthResult(responseOk, data, fallback) == Err(ErrorMessage(data.message, fallback))
    ensures AfterAuth(s, responseOk, data) == s
  {
  }

  /** An accepted call returns data.user; it stores the token and the user
      together when the response carries a token, and neither otherwise. */
  lemma AuthSuccessStores(s: SessionSlots, data: AuthEnvelope, fallback: string)
    requires data.success
    ensures AuthResult(true, data, fallback) == Ok(data.user)
    ensures Truthy(data.token) ==>
      AfterAuth(s, true, data) == SessionSlots(data.token, Some(Stringify(data.user)))
    ensures !Truthy(data.token) ==> AfterAuth(s, true, data) == s
  {
  }

  /** No operation leaves half a session behind. */
  lemma SessionStaysPaired(s: SessionSlots, responseOk: bool, data: AuthEnvelope)
    requires Paired(s)
    ensures Paired(AfterAuth(s, responseOk, data))
    ensures Paired(AfterLogout(s))
  {
  }

  /** Logging out twice is logging out once, and afterwards there is no
      current user. */
  lemma LogoutIdempotent(s: SessionSlots)
    ensures AfterLogout(AfterLogout(s)) == AfterLogout(s)
    ensures CurrentUser(AfterLogout(s)) == Ok(Json.JNull)
  {
  }

  /** After a token-bearing login the current user is the data.user the
      server sent; when the server sent no user, reading it back throws. */
  lemma CurrentUserAfterLogin(s: SessionSlots, data: AuthEnvelope)
    requires data.success && Truthy(data.token)
    ensures data.user.Some? ==> CurrentUser(AfterAuth(s, true, data)) == Ok(data.user.value)
    ensures data.user.None? ==> CurrentUser(AfterAuth(s, true, data)).Err?
  {
  }

  /** The {success, data, message} envelope of every other call; data None
      is an absent field. */
  datatype Envelope = Envelope(success: bool, data: Option<Json.Value>, message: Option<string>)

  /** The list getters (getAllUsers, getAllCourses, getAllExams,
      getAllQuestions): data.data on success, even when it is undefined, and
      the empty list on failure whatever the message; never an error. */
  function ListPayload(env: Envelope): (p: Option<Json.Value>)
    ensures env.success ==> p == env.data
    ensures !env.success ==> p == Some(Json.JArr([]))
  {
    if env.success then env.data else Some(Json.JArr([]))
  }

  /** The calls that throw on failure, each with its fallback message. */
  datatype Call =
    | CreateUser | UpdateUser | DeleteUser | UpdateUserRole
    | GetCourseById | CreateCourse | UpdateCourse | DeleteCourse
    | CreateExam | UpdateExam | DeleteExam
    | CreateQuestion | UpdateQuestion | DeleteQuestion

  function Fallback(call: Call): (f: string)
    ensures |f| > 10 && f[..10] == "Failed to "
  {
    match call
    case CreateUser => "Failed to create user"
    case UpdateUser => "Failed to update user"
    case DeleteUser => "Failed to delete user"
    case UpdateUserRole => "Failed to update user role"
    case GetCourseById => "Failed to fetch course"
    case CreateCourse => "Failed to create course"
    case UpdateCourse => "Failed to update course"
    case DeleteCourse => "Failed to delete course"
    case CreateExam => "Failed to create exam"
    case UpdateExam => "Failed to update exam"
    case DeleteExam => "Failed to delete exam"
    case CreateQuestion => "Failed to create question"
    case UpdateQuestion => "Failed to update question"
    case DeleteQuestion => "Failed to delete question"
  }

  /** The result of a throwing call: data.data exactly when the envelope
      reports success, otherwise the error it throws, which is the server's
      message or the call's own fallback and is never empty. */
  function CallResult(call: Call, env: Envelope): (r: Result<Option<Json.Value>, string>)
    ensures r.Ok? <==> env.success
    ensures r.Ok? ==> r.value == env.data
    ensures r.Err? ==> r.error != "" && (r.error == Fallback(call) || Some(r.error) == env.message)
  {
    if !env.success then Err(ErrorMessage(env.message, Fallback(call))) else Ok(env.data)
  }

  /** A list getter and a throwing call read the same envelope alike on
      success; on failure the getter swallows the error the call throws and
      answers the empty list. */
  lemma GetterSwallowsFailure(call: Call, env: Envelope)
    ensures CallResult(call, env).Ok? ==> ListPayload(env) == CallResult(call, env).value
    ensures CallResult(call, env).Err? ==> ListPayload(env) == Some(Json.JArr([]))
  {
  }

  /** The browser storage as this client uses it. */
  class ClientSession {
    var token: Option<string>
    var user: Option<StoredUser>

    function Slots(): SessionSlots
      reads this
    {
      SessionSlots(token, user)
    }

    constructor (initial: SessionSlots)
      ensures Slots() == initial
    {
      token := initial.token;
      user := initial.user;
    }

    /** The shared tail of login and register, after the response arrived. */
    method Authenticate(responseOk: bool, data: AuthEnvelope, fallback: string) returns (r: Result<Option<Json.Value>, string>)
      modifies this
      ensures r == AuthResult(responseOk, data, fallback)
      ensures Slots() == AfterAuth(old(Slots()), responseOk, data)
    {
      if !responseOk || !data.success {
        return Err(ErrorMessage(data.message, fallback));
      }
      if Truthy(data.token) {
        token := data.token;
        user := Some(Stringify(data.user));
      }
      return Ok(data.user);
    }

    method Register(responseOk: bool, data: AuthEnvelope) returns (r: Result<Option<Json.Value>, string>)
      modifies this
      ensures r == AuthResult(responseOk, data, RegistrationFailed)
      ensures Slots() == AfterAuth(old(Slots()), responseOk, data)
    {
      r := Authenticate(responseOk, data, RegistrationFailed);
    }

    method Login(responseOk: bool, data: AuthEnvelope) returns (r: Result<Option<Json.Value>, string>)
      modifies this
      ensures r == AuthResult(responseOk, data, LoginFailed)
      ensures Slots() == AfterAuth(old(Slots()), responseOk, data)
    {
      r := Authenticate(responseOk, data, LoginFailed);
    }

    method Logout()
      modifies this
      ensures Slots() == AfterLogout(old(Slots()))
    {
      token := None;
      user := None;
    }
  }
}
