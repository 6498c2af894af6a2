/** The guardian sign-in / sign-up page. Its state is the mode flag, the form
    fields, the error messages shown under the form and the profile handed to
    the dashboard on navigation. handleLogin classifies one submission into
    one of six outcomes over the mock user directory; only a sign-up calls
    the directory's registerUser, and it navigates whatever that returns. */
module GuardianLogin {
  import opened Wrappers
  import Text
  import UserDatabase

  datatype Field = FullName | Email | Password

  /** The name of a field, which is also its key in the errors object. */
  function FieldName(f: Field): string
  {
    match f
    case FullName => "fullName"
    case Email => "email"
    case Password => "password"
  }

  datatype Form = Form(fullName: string, email: string, password: string)

  /** { ...prev, [field]: value } on the form. */
  function SetField(form: Form, f: Field, value: string): (r: Form)
    ensures f == FullName ==> r == form.(fullName := value)
    ensures f == Email ==> r == form.(email := value)
    ensures f == Password ==> r == form.(password := value)
  {
    match f
    case FullName => form.(fullName := value)
    case Email => form.(email := value)
    case Password => form.(password := value)
  }

  /** The errors object: message by key ("general", "email", "password"). */
  type Errors = map<string, string>

  const FillAllFields: string := "Please fill in all fields"
  const EnterFullName: string := "Please enter your full name"
  const AlreadyExists: string := "User already exists. Please sign in instead."
  const NotGuardianAccount: string := "This account is not a guardian account"
  const InvalidCredentials: string := "Invalid email or password"
  const GuardianRole: string := "guardian"
  const DefaultRelationship: string := "Parent"
  const Dashboard: string := "/guardian-dashboard"

  /** validateForm(): the errors it sets; the form is valid when they are
      empty. */
  function FormErrors(form: Form): (e: Errors)
    ensures |e| == 0 <==> form.email != "" && form.password != ""
    ensures |e| != 0 ==> e == map["general" := FillAllFields]
  {
    if form.email == "" || form.password == "" then map["general" := FillAllFields] else map[]
  }

  /** The state handed to the dashboard. guardianId is None when the record
      has none (undefined). */
  datatype Profile = Profile(userName: string, email: string, guardianId: Option<string>, relationship: string)

  /** 'GRD' + Date.now().toString().slice(-3). */
  function GuardianId(now: int): (id: string)
    ensures 4 <= |id| <= 6 && id[..3] == "GRD"
    ensures now >= 100 ==>
      id[3..] == [Text.DigitChar(now / 100 % 10), Text.DigitChar(now / 10 % 10), Text.DigitChar(now % 10)]
  {
    LastThreeDigits(now);
    "GRD" + Text.LastChars(Text.Decimal(now), 3)
  }

  /** The last three characters of the rendering of a clock reading of at
      least 100 are its hundreds, tens and units digits. */
  lemma LastThreeDigits(n: int)
    ensures n >= 100 ==>
      Text.LastChars(Text.Decimal(n), 3) == [Text.DigitChar(n / 100 % 10), Text.DigitChar(n / 10 % 10), Text.DigitChar(n % 10)]
  {
    if n < 100 {
      return;
    }
    var d := Text.NatDigits(n);
    var d1 := Text.NatDigits(n / 10);
    var d2 := Text.NatDigits(n / 100);
    assert d == d1 + [Text.DigitChar(n % 10)];
    assert d1 == d2 + [Text.DigitChar(n / 10 % 10)];
    Text.NatDigitsLast(n / 100);
    assert d[|d| - 3..] == [d2[|d2| - 1], Text.DigitChar(n / 10 % 10), Text.DigitChar(n % 10)];
  }

  /** The record a sign-up registers. */
  function NewGuardian(form: Form, now: int): (r: UserDatabase.UserRecord)
    ensures r.email == form.email && r.fullName == form.fullName && r.password == form.password
    ensures r.role == GuardianRole
    ensures r.attributes == map["guardianId" := GuardianId(now), "relationship" := DefaultRelationship]
  {
    UserDatabase.UserRecord(form.email, form.fullName, GuardianRole, form.password,
      map["guardianId" := GuardianId(now), "relationship" := DefaultRelationship])
  }

  /** The six outcomes of handleLogin. */
  datatype Outcome =
    | MissingFields
    | MissingName
    | SignedUp(profile: Profile)
    | SignedIn(profile: Profile)
    | NotGuardian
    | BadCredentials

  /** The errors object handleLogin leaves: a successful submission keeps the
      empty object validateForm set. */
  function OutcomeErrors(o: Outcome): Errors
  {
    match o
    case MissingFields => map["general" := FillAllFields]
    case MissingName => map["general" := EnterFullName]
    case SignedUp(_) => map[]
    case SignedIn(_) => map[]
    case NotGuardian => map["password" := NotGuardianAccount]
    case BadCredentials => map["password" := InvalidCredentials]
  }

  /** Whether the outcome navigates to the dashboard. */
  predicate Navigates(o: Outcome)
  {
    o.SignedUp? || o.SignedIn?
  }

  function Attribute(r: UserDatabase.UserRecord, name: string): Option<string>
  {
    if name in r.attributes then Some(r.attributes[name]) else None
  }

  /** The dashboard profile of a signed-in guardian: name and email from the
      record, relationship defaulting to 'Parent' when missing or empty. */
  function SignInProfile(r: UserDatabase.UserRecord): (p: Profile)
    ensures p.userName == r.fullName && p.email == r.email
    ensures p.guardianId == Attribute(r, "guardianId")
    ensures p.relationship != ""
    ensures Attribute(r, "relationship").Some? && Attribute(r, "relationship").value != "" ==>
      p.relationship == r.attributes["relationship"]
  {
    var rel := Attribute(r, "relationship");
    Profile(r.fullName, r.email, Attribute(r, "guardianId"),
      if rel.Some? && rel.value != "" then rel.value else DefaultRelationship)
  }

  /** The sign-in classification. */
  function SignInOutcome(users: UserDatabase.Users, form: Form): (o: Outcome)
    ensures var user := UserDatabase.AuthenticateUser(users, form.email, form.password);
      && (o.SignedIn? <==> user.Some? && user.value.role == GuardianRole)
      && (o.NotGuardian? <==> user.Some? && user.value.role != GuardianRole)
      && (o.BadCredentials? <==> user.None?)
      && (o.SignedIn? ==> o.profile == SignInProfile(user.value))
  {
    var user := UserDatabase.AuthenticateUser(users, form.email, form.password);
    if user.Some? && user.value.role == GuardianRole then SignedIn(SignInProfile(user.value))
    else if user.Some? then NotGuardian
    else BadCredentials
  }

  /** handleLogin: the directory afterwards and the outcome. */
  function Submit(users: UserDatabase.Users, isSignUp: bool, form: Form, now: int): (r: (UserDatabase.Users, Outcome))
    ensures r.1.MissingFields? <==> form.email == "" || form.password == ""
    ensures r.1.MissingName? <==> isSignUp && form.email != "" && form.password != "" && form.fullName == ""
    ensures r.1.SignedUp? <==> isSignUp && form.email != "" && form.password != "" && form.fullName != ""
    ensures r.0 != users ==> r.1.SignedUp? && !UserDatabase.UserExists(users, form.email)
    ensures r.1.SignedUp? ==> r.1.profile.email == form.email && r.1.profile.userName == form.fullName
  {
    if |FormErrors(form)| != 0 then (users, MissingFields)
    else if isSignUp then
      if form.fullName == "" then (users, MissingName)
      else
        var record := NewGuardian(form, now);
        (UserDatabase.Register(users, record).users,
         SignedUp(Profile(record.fullName, record.email, Some(GuardianId(now)), DefaultRelationship)))
    else (users, SignInOutcome(users, form))
  }

  /** Whether a submission reaches registerUser with an email that is not
      yet registered, so that the directory is rewritten to storage. */
  predicate Registers(users: UserDatabase.Users, isSignUp: bool, form: Form)
  {
    isSignUp && form.email != "" && form.password != "" && form.fullName != ""
    && !UserDatabase.UserExists(users, form.email)
  }

  /** The errors after handleInputChange: the field's own error is blanked
      when it was showing, then, in sign-up mode, an email containing '@'
      that is already registered gets the duplicate hint. */
  function InputErrors(errors: Errors, f: Field, value: string, isSignUp: bool, users: UserDatabase.Users): (e: Errors)
    ensures var hint := f == Email && isSignUp && '@' in value && UserDatabase.UserExists(users, value);
      && (hint ==> e == errors[FieldName(f) := ""]["email" := AlreadyExists])
      && (!hint ==> e.Keys == errors.Keys)
      && (!hint && FieldName(f) in errors ==> e[FieldName(f)] == "")
      && (forall k :: k in errors && k != FieldName(f) ==> e[k] == errors[k])
  {
    var key := FieldName(f);
    var cleared := if key in errors && errors[key] != "" then errors[key := ""] else errors;
    if f == Email && isSignUp && '@' in value && UserDatabase.UserExists(users, value)
    then cleared["email" := AlreadyExists] else cleared
  }

  /** An empty email or password only sets the general error: no directory
      change and no navigation. */
  lemma MissingFieldsStops(users: UserDatabase.Users, isSignUp: bool, form: Form, now: int)
    requires form.email == "" || form.password == ""
    ensures Submit(users, isSignUp, form, now) == (users, MissingFields)
    ensures OutcomeErrors(MissingFields) == map["general" := FillAllFields]
    ensures !Navigates(MissingFields)
  {
  }

  /** A sign-up without a name registers nothing. */
  lemma MissingNameStops(users: UserDatabase.Users, form: Form, now: int)
    requires form.email != "" && form.password != "" && form.fullName == ""
    ensures Submit(users, true, form, now) == (users, MissingName)
    ensures !Navigates(MissingName)
  {
  }

  /** A complete sign-up for a new email files the guardian record under the
      lower-cased email and navigates with a profile describing it. */
  lemma SignUpRegisters(users: UserDatabase.Users, form: Form, now: int)
    requires form.email != "" && form.password != "" && form.fullName != ""
    requires !UserDatabase.UserExists(users, form.email)
    ensures var (after, o) := Submit(users, true, form, now);
      && UserDatabase.GetUser(after, form.email) == Some(NewGuardian(form, now))
      && o == SignedUp(Profile(form.fullName, form.email, Some(GuardianId(now)), DefaultRelationship))
  {
    UserDatabase.RegisteredIsFound(users, NewGuardian(form, now), form.email);
  }

  /** A complete sign-up for an email already registered leaves the
      directory unchanged, yet still navigates, with the typed name. */
  lemma SignUpIgnoresDuplicate(users: UserDatabase.Users, form: Form, now: int)
    requires form.email != "" && form.password != "" && form.fullName != ""
    requires UserDatabase.UserExists(users, form.email)
    ensures var (after, o) := Submit(users, true, form, now);
      after == users && o == SignedUp(Profile(form.fullName, form.email, Some(GuardianId(now)), DefaultRelationship))
  {
  }

  /** Sign-in: the three outcomes are decided by authentication and the
      role, and each shows its own message. */
  lemma SignInClassification(users: UserDatabase.Users, form: Form, now: int)
    requires form.email != "" && form.password != ""
    ensures var (after, o) := Submit(users, false, form, now);
      var user := UserDatabase.AuthenticateUser(users, form.email, form.password);
      && after == users
      && (o.SignedIn? <==> user.Some? && user.value.role == GuardianRole)
      && (o.NotGuardian? <==> user.Some? && user.value.role != GuardianRole)
      && (o.BadCredentials? <==> user.None?)
      && (o.SignedIn? ==> o.profile == SignInProfile(user.value))
  {
  }

  /** The role-mismatch and bad-credential messages differ. */
  lemma FailureMessagesDiffer()
    ensures OutcomeErrors(NotGuardian) != OutcomeErrors(BadCredentials)
  {
    assert OutcomeErrors(NotGuardian)["password"] != OutcomeErrors(BadCredentials)["password"];
  }

  /** Typing a registered email containing '@' in sign-up mode shows the
      duplicate hint; every other edit keeps the set of error keys as it
      was. */
  lemma DuplicateHint(errors: Errors, f: Field, value: string, isSignUp: bool, users: UserDatabase.Users)
    ensures f == Email && isSignUp && '@' in value && UserDatabase.UserExists(users, value) ==>
      InputErrors(errors, f, value, isSignUp, users)["email"] == AlreadyExists
    ensures !(f == Email && isSignUp && '@' in value && UserDatabase.UserExists(users, value)) ==>
      InputErrors(errors, f, value, isSignUp, users).Keys == errors.Keys
  {
  }

  /** The sign-in outcome once authentication has found a record. */
  lemma SignInOf(users: UserDatabase.Users, form: Form, record: UserDatabase.UserRecord)
    requires UserDatabase.AuthenticateUser(users, form.email, form.password) == Some(record)
    ensures record.role == GuardianRole ==> SignInOutcome(users, form) == SignedIn(SignInProfile(record))
    ensures record.role != GuardianRole ==> SignInOutcome(users, form) == NotGuardian
  {
  }

  /** A seeded user authenticates under its own key with its password. */
  lemma SeedAuthenticates(key: string, password: string)
    requires key in UserDatabase.Seed && UserDatabase.Key(key) == key
    requires UserDatabase.Seed[key].password == password
    ensures UserDatabase.AuthenticateUser(UserDatabase.Seed, key, password) == Some(UserDatabase.Seed[key])
  {
  }

  lemma SeedGuardianProfile(record: UserDatabase.UserRecord)
    requires record == UserDatabase.Seed["parent@guardian.school.edu"]
    ensures record.password == "Parent123!" && record.role == GuardianRole
    ensures SignInProfile(record) == Profile("Parent Guardian", "parent@guardian.school.edu", Some("GRD001"), "Parent")
  {
  }

  lemma SeedLearnerRecord(record: UserDatabase.UserRecord)
    requires record == UserDatabase.Seed["student@school.edu"]
    ensures record.password == "Student123!" && record.role != GuardianRole
  {
  }

  /** The demo guardian signs in and reaches the dashboard with the profile
      stored for it. */
  lemma SeedGuardianSignsIn(form: Form)
    requires form == Form("", "parent@guardian.school.edu", "Parent123!")
    ensures SignInOutcome(UserDatabase.Seed, form)
      == SignedIn(Profile("Parent Guardian", "parent@guardian.school.edu", Some("GRD001"), "Parent"))
  {
    var record := UserDatabase.Seed["parent@guardian.school.edu"];
    SeedGuardianProfile(record);
    Text.ToLowerIs("parent@guardian.school.edu", "parent@guardian.school.edu");
    SeedAuthenticates("parent@guardian.school.edu", "Parent123!");
    SignInOf(UserDatabase.Seed, form, record);
  }

  /** The demo learner's correct credentials are turned away as not a
      guardian account. */
  lemma SeedLearnerNotGuardian(form: Form)
    requires form == Form("", "student@school.edu", "Student123!")
    ensures SignInOutcome(UserDatabase.Seed, form) == NotGuardian
  {
    var record := UserDatabase.Seed["student@school.edu"];
    SeedLearnerRecord(record);
    Text.ToLowerIs("student@school.edu", "student@school.edu");
    SeedAuthenticates("student@school.edu", "Student123!");
    SignInOf(UserDatabase.Seed, form, record);
  }

  /** A complete sign-up, step by step: the directory after registering
      the new guardian record, and the profile navigated to. */
  lemma SubmitSignUp(users: UserDatabase.Users, form: Form, now: int)
    requires form.email != "" && form.password != "" && form.fullName != ""
    ensures var record := NewGuardian(form, now);
      && Submit(users, true, form, now) == (UserDatabase.Register(users, record).users,
           SignedUp(Profile(record.fullName, record.email, Some(GuardianId(now)), DefaultRelationship)))
      && (Registers(users, true, form) <==> UserDatabase.Register(users, record).result.Ok?)
  {
  }

  /** The page component's state. */
  class LoginPage {
    var isSignUp: bool
    var form: Form
    var errors: Errors
    /** The profile passed with the last navigation to the dashboard. */
    var navigation: Option<Profile>

    constructor ()
      ensures !isSignUp && form == Form("", "", "") && errors == map[] && navigation == None
    {
      isSignUp := false;
      form := Form("", "", "");
      errors := map[];
      navigation := None;
    }

    /** The "Sign Up" / "Sign In" link. */
    method ToggleMode()
      modifies this
      ensures isSignUp == !old(isSignUp)
      ensures form == old(form) && errors == old(errors) && navigation == old(navigation)
    {
      isSignUp := !isSignUp;
    }

    method HandleInputChange(f: Field, value: string, dir: UserDatabase.Directory)
      modifies this
      ensures form == SetField(old(form), f, value)
      ensures errors == InputErrors(old(errors), f, value, old(isSignUp), dir.users)
      ensures isSignUp == old(isSignUp) && navigation == old(navigation)
    {
      form := SetField(form, f, value);
      var key := FieldName(f);
      if key in errors && errors[key] != "" {
        errors := errors[key := ""];
      }
      if f == Email && isSignUp && '@' in value {
        if UserDatabase.UserExists(dir.users, value) {
          errors := errors["email" := AlreadyExists];
        }
      }
    }

    method HandleLogin(dir: UserDatabase.Directory, now: int)
      modifies this, dir
      ensures dir.users == Submit(old(dir.users), old(isSignUp), old(form), now).0
      ensures var o := Submit(old(dir.users), old(isSignUp), old(form), now).1;
        errors == OutcomeErrors(o) && navigation == if Navigates(o) then Some(o.profile) else old(navigation)
      ensures dir.stored == if Registers(old(dir.users), old(isSignUp), old(form)) then Some(dir.users) else old(dir.stored)
      ensures isSignUp == old(isSignUp) && form == old(form)
    {
      errors := FormErrors(form);
      if |errors| != 0 {
        return;
      }
      if isSignUp {
        if form.fullName != "" {
          SubmitSignUp(dir.users, form, now);
        }
        SignUp(dir, now);
      } else {
        SignIn(dir);
      }
    }

    /** The sign-up branch of handleLogin, after validateForm passed. */
    method SignUp(dir: UserDatabase.Directory, now: int)
      requires form.email != "" && form.password != "" && errors == map[]
      modifies this, dir
      ensures form.fullName == "" ==>
        && dir.users == old(dir.users) && dir.stored == old(dir.stored)
        && errors == map["general" := EnterFullName] && navigation == old(navigation)
      ensures form.fullName != "" ==>
        var record := NewGuardian(form, now);
        var g := UserDatabase.Register(old(dir.users), record);
        && dir.users == g.users
        && dir.stored == (if g.result.Ok? then Some(dir.users) else old(dir.stored))
        && errors == map[]
        && navigation == Some(Profile(record.fullName, record.email, Some(GuardianId(now)), DefaultRelationship))
      ensures isSignUp == old(isSignUp) && form == old(form)
    {
      if form.fullName == "" {
        errors := map["general" := EnterFullName];
        return;
      }
      var record := NewGuardian(form, now);
      var _ := dir.RegisterUser(record);
      navigation := Some(Profile(record.fullName, record.email, Some(GuardianId(now)), DefaultRelationship));
    }

    /** The sign-in branch of handleLogin, after validateForm passed. */
    method SignIn(dir: UserDatabase.Directory)
      requires form.email != "" && form.password != "" && errors == map[]
      modifies this
      ensures var o := SignInOutcome(dir.users, form);
        errors == OutcomeErrors(o) && navigation == if Navigates(o) then Some(o.profile) else old(navigation)
      ensures isSignUp == old(isSignUp) && form == old(form)
    {
      var user := UserDatabase.AuthenticateUser(dir.users, form.email, form.password);
      if user.Some? && user.value.role == GuardianRole {
        navigation := Some(SignInProfile(user.value));
      } else if user.Some? {
        errors := map["password" := NotGuardianAccount];
      } else {
        errors := map["password" := InvalidCredentials];
      }
    }
  }
}
