/** The authentication response DTO: the token as given and a copy of the
    user with its password cleared. */
module AuthResponseDto {
  import opened Wrappers
  import UserModel

  datatype AuthResponse = AuthResponse(token: Option<string>, user: UserModel.User)

  /** new AuthResponse(token, user): a fresh User built field by field from
      the given one, the password set to null. */
  function NewAuthResponse(token: Option<string>, user: UserModel.User): (r: AuthResponse)
    ensures r.token == token
    ensures r.user.id == user.id && r.user.name == user.name
    ensures r.user.email == user.email && r.user.role == user.role
    ensures r.user.password.None?
  {
    var copy := UserModel.NewUser();
    AuthResponse(token, copy.(id := user.id, name := user.name, email := user.email, role := user.role, password := None))
  }

  /** The response user is the given user with the password removed and
      nothing else changed, and building a response from a response's user
      changes nothing further. */
  lemma ResponseDropsOnlyPassword(token: Option<string>, user: UserModel.User, other: Option<string>)
    ensures NewAuthResponse(token, user).user == user.(password := None)
    ensures NewAuthResponse(other, NewAuthResponse(token, user).user).user == NewAuthResponse(token, user).user
  {
  }

  /** Two users that differ only in their passwords give the same response:
      nothing in it depends on the password. */
  lemma ResponseIgnoresPassword(token: Option<string>, user: UserModel.User, password: Option<string>)
    ensures NewAuthResponse(token, user.(password := password)) == NewAuthResponse(token, user)
  {
  }
}
