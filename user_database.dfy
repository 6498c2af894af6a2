/** The frontend's mock user directory: a map from lower-cased email to user
    record, seeded with three demo accounts, merged at start-up with the
    snapshot persisted under the storage key "skillforge_users", and
    rewritten to that key on every registration. Lookups lower-case the
    queried email; authentication is an exact password comparison; the
    password policy reports the first of five rules that fails. */
module UserDatabase {
  import opened Wrappers
  import Text

  /** A user record. The role-specific fields (studentId, institution,
      adminId, department, guardianId, relationship) are kept by name. */
  datatype UserRecord = UserRecord(
    email: string,
    fullName: string,
    role: string,
    password: string,
    attributes: map<string, string>)

  type Users = map<string, UserRecord>

  const StorageKey: string := "skillforge_users"
  const DuplicateMessage: string := "This email is already registered with another role"

  /** The three demo accounts the directory starts with. */
  const Seed: Users := map[
    "student@school.edu" := UserRecord("student@school.edu", "John Student", "learner", "Student123!",
      map["studentId" := "STU001", "institution" := "Demo School"]),
    "admin@admin.school.edu" := UserRecord("admin@admin.school.edu", "Admin User", "admin", "Admin123!",
      map["adminId" := "ADM001", "department" := "Academic Affairs", "institution" := "Demo School"]),
    "parent@guardian.school.edu" := UserRecord("parent@guardian.school.edu", "Parent Guardian", "guardian", "Parent123!",
      map["guardianId" := "GRD001", "relationship" := "Parent"])]

  /** The key an email is filed under. */
  function Key(email: string): string
  {
    Text.ToLower(email)
  }

  /** userExists(email): some user is filed under a key equal to the email
      up to letter case, and, when every key is lower case (as registration
      keeps them), the converse holds too. */
  predicate UserExists(users: Users, email: string): (b: bool)
    ensures b ==> exists k :: k in users && Text.EqualIgnoringCase(k, email)
    ensures (forall k :: k in users ==> Text.ToLower(k) == k) && (exists k :: k in users && Text.EqualIgnoringCase(k, email)) ==> b
  {
    KeyIgnoresCase(users, email);
    Key(email) in users
  }

  lemma KeyIgnoresCase(users: Users, email: string)
    ensures Key(email) in users ==> exists k :: k in users && Text.EqualIgnoringCase(k, email)
    ensures (forall k :: k in users ==> Text.ToLower(k) == k) && (exists k :: k in users && Text.EqualIgnoringCase(k, email)) ==> Key(email) in users
  {
    if Key(email) in users {
      Text.ToLowerIdempotent(email);
      Text.ToLowerEqualIff(Key(email), email);
    }
    if (forall k :: k in users ==> Text.ToLower(k) == k) && (exists k :: k in users && Text.EqualIgnoringCase(k, email)) {
      var k :| k in users && Text.EqualIgnoringCase(k, email);
      Text.ToLowerEqualIff(k, email);
    }
  }

  /** getUser(email); None stands for undefined. */
  function GetUser(users: Users, email: string): (r: Option<UserRecord>)
    ensures r.Some? <==> UserExists(users, email)
    ensures r.Some? ==> r.value == users[Key(email)]
  {
    if Key(email) in users then Some(users[Key(email)]) else None
  }

  /** authenticateUser(email, password); None stands for null. */
  function AuthenticateUser(users: Users, email: string, password: string): (r: Option<UserRecord>)
    ensures r.Some? <==> UserExists(users, email) && users[Key(email)].password == password
    ensures r.Some? ==> r.value == users[Key(email)]
  {
    var user := GetUser(users, email);
    if user.Some? && user.value.password == password then user else None
  }

  /** A lookup differing from another only in the case of its letters finds
      the same record, and the same answer to authentication. */
  lemma LookupIgnoresCase(users: Users, e1: string, e2: string, password: string)
    requires Text.EqualIgnoringCase(e1, e2)
    ensures UserExists(users, e1) <==> UserExists(users, e2)
    ensures GetUser(users, e1) == GetUser(users, e2)
    ensures AuthenticateUser(users, e1, password) == AuthenticateUser(users, e2, password)
  {
    Text.ToLowerEqualIff(e1, e2);
  }

  /** An unknown email and a wrong password give the same answer: the caller
      cannot tell them apart. */
  lemma AuthenticationFailuresAlike(users: Users, unknown: string, known: string, wrong: string)
    requires !UserExists(users, unknown)
    requires UserExists(users, known) && users[Key(known)].password != wrong
    ensures AuthenticateUser(users, unknown, wrong) == AuthenticateUser(users, known, wrong) == None
  {
  }

  /** The outcome of registerUser: the directory afterwards and what the call
      returns (the record, or an object carrying the duplicate error). */
  datatype Registration = Registration(users: Users, result: Result<UserRecord, string>)

  /** registerUser(record) on the map alone: the key is lower-cased, then
      looked up (lower-cased again) before anything is stored. Registration
      fails exactly when the email is present under any case, and then
      changes nothing; otherwise it files the record under the lower-cased
      email, returns that same record and leaves every other entry alone. */
  function Register(users: Users, record: UserRecord): (g: Registration)
    ensures g.result.Err? <==> UserExists(users, record.email)
    ensures g.result.Err? ==> g.users == users && g.result.error == DuplicateMessage
    ensures g.result.Ok? ==> g.result.value == record && g.users.Keys == users.Keys + {Key(record.email)}
    ensures g.result.Ok? ==> g.users[Key(record.email)] == record && forall k :: k in users ==> g.users[k] == users[k]
  {
    Text.ToLowerIdempotent(record.email);
    var key := Text.ToLower(record.email);
    if UserExists(users, key) then Registration(users, Err(DuplicateMessage))
    else Registration(users[key := record], Ok(record))
  }

  /** After registering, the record is found, under any case of its email,
      and authenticates with its password. */
  lemma RegisteredIsFound(users: Users, record: UserRecord, email: string)
    requires !UserExists(users, record.email)
    requires Text.EqualIgnoringCase(email, record.email)
    ensures var after := Register(users, record).users;
      GetUser(after, email) == Some(record) && AuthenticateUser(after, email, record.password) == Some(record)
  {
    LookupIgnoresCase(Register(users, record).users, email, record.email, record.password);
  }

  /** Registering the same email twice, in any case and under any role, is
      rejected the second time, and the first record stays as it was. */
  lemma RegisterTwiceRejected(users: Users, first: UserRecord, second: UserRecord)
    requires !UserExists(users, first.email)
    requires Text.EqualIgnoringCase(first.email, second.email)
    ensures var once := Register(users, first).users;
      Register(once, second) == Registration(once, Err(DuplicateMessage))
      && GetUser(once, first.email) == Some(first)
  {
    var once := Register(users, first).users;
    LookupIgnoresCase(once, first.email, second.email, "");
  }

  /** loadFromStorage: the stored snapshot, when there is one, is spread over
      the current map, so stored entries win key by key. */
  function Merge(current: Users, stored: Option<Users>): (r: Users)
    ensures stored.None? ==> r == current
    ensures stored.Some? ==> r.Keys == current.Keys + stored.value.Keys
    ensures stored.Some? ==> forall k :: k in stored.value ==> r[k] == stored.value[k]
    ensures stored.Some? ==> forall k :: k in current && k !in stored.value ==> r[k] == current[k]
  {
    if stored.Some? then current + stored.value else current
  }

  /** The five password rules, in the order they are checked. */
  const PasswordMinLength: nat := 8
  const SpecialChars: set<char> :=
    {'!', '@', '#', '$', '%', '^', '&', '*', '(', ')', ',', '.', '?', '"', ':', '{', '}', '|', '<', '>'}

  const PasswordMessages: seq<string> := [
    "Password must be at least 8 characters long",
    "Password must contain at least one uppercase letter",
    "Password must contain at least one lowercase letter",
    "Password must contain at least one number",
    "Password must contain at least one special character"]

  /** The regular-expression tests /[A-Z]/, /[a-z]/, /\d/ and the special
      character class: some character of p is in the class. */
  predicate HasUpper(p: string) { exists i :: 0 <= i < |p| && Text.IsUpperAscii(p[i]) }
  predicate HasLower(p: string) { exists i :: 0 <= i < |p| && Text.IsLowerAscii(p[i]) }
  predicate HasDigit(p: string) { exists i :: 0 <= i < |p| && Text.IsDigitAscii(p[i]) }
  predicate HasSpecial(p: string) { exists i :: 0 <= i < |p| && p[i] in SpecialChars }

  /** Rule k of the policy (0: length, 1: uppercase, 2: lowercase, 3: digit,
      4: special character). Length counts UTF-16 code units, as .length does. */
  predicate RuleHolds(k: nat, p: string)
    requires k < 5
  {
    match k
    case 0 => Text.Utf16Length(p) >= PasswordMinLength
    case 1 => HasUpper(p)
    case 2 => HasLower(p)
    case 3 => HasDigit(p)
    case _ => HasSpecial(p)
  }

  /** validatePassword(password); None stands for null. */
  function ValidatePassword(p: string): (r: Option<string>)
    ensures r.Some? ==> r.value in PasswordMessages
  {
    if Text.Utf16Length(p) < PasswordMinLength then Some(PasswordMessages[0])
    else if !HasUpper(p) then Some(PasswordMessages[1])
    else if !HasLower(p) then Some(PasswordMessages[2])
    else if !HasDigit(p) then Some(PasswordMessages[3])
    else if !HasSpecial(p) then Some(PasswordMessages[4])
    else None
  }

  /** A password is accepted exactly when all five rules hold. */
  lemma ValidatePasswordAccepts(p: string)
    ensures ValidatePassword(p).None? <==> forall k :: 0 <= k < 5 ==> RuleHolds(k, p)
  {
    assert RuleHolds(0, p) && RuleHolds(1, p) && RuleHolds(2, p) && RuleHolds(3, p) && RuleHolds(4, p)
      <==> forall k :: 0 <= k < 5 ==> RuleHolds(k, p);
  }

  /** The message reported is that of the first rule that fails, and only
      that one. */
  lemma ValidatePasswordFirstFailure(p: string, k: nat)
    requires k < 5
    ensures ValidatePassword(p) == Some(PasswordMessages[k]) <==>
      !RuleHolds(k, p) && forall j :: 0 <= j < k ==> RuleHolds(j, p)
  {
    var m := PasswordMessages;
    assert m[0] != m[1] && m[0] != m[2] && m[0] != m[3] && m[0] != m[4];
    assert m[1] != m[2] && m[1] != m[3] && m[1] != m[4];
    assert m[2] != m[3] && m[2] != m[4] && m[3] != m[4];
    assert RuleHolds(0, p) && RuleHolds(1, p) && RuleHolds(2, p) && RuleHolds(3, p) && RuleHolds(4, p)
      ==> forall j :: 0 <= j < k ==> RuleHolds(j, p);
  }

  /** A five-letter password fails on length before anything else. */
  lemma ShortPasswordExample()
    ensures ValidatePassword("short") == Some(PasswordMessages[0])
  {
    assert Text.Utf16Length("short") == 5;
  }

  /** "longenough1" lacks an uppercase letter and a special character; the
      uppercase rule comes first, so its message is the one reported. */
  lemma NoUppercaseExample(p: string)
    requires p == "longenough1"
    ensures ValidatePassword(p) == Some(PasswordMessages[1])
  {
    Text.Utf16LengthBmp(p);
    assert !HasUpper(p);
  }

  lemma AcceptedPasswordExample(p: string)
    requires p == "Abc12345!"
    ensures ValidatePassword(p) == None
  {
    Text.Utf16LengthBmp(p);
    assert Text.IsUpperAscii(p[0]) && Text.IsLowerAscii(p[1]) && Text.IsDigitAscii(p[3]) && p[8] in SpecialChars;
  }

  /** The answer of sendPasswordToEmail. */
  datatype Notice = Notice(success: bool, message: string)

  const EmailNotFound: string := "Email not found"
  const PasswordSent: string := "Password has been sent to your email address. Check console for simulation."

  /** sendPasswordToEmail(email): failure for an unknown email, success for a
      known one. */
  function SendPasswordToEmail(users: Users, email: string): (n: Notice)
    ensures n.success <==> UserExists(users, email)
    ensures n.message == if n.success then PasswordSent else EmailNotFound
  {
    if GetUser(users, email).None? then Notice(false, EmailNotFound)
    else Notice(true, PasswordSent)
  }

  /** The lower-case property names a plain JavaScript object inherits from
      Object.prototype with a truthy value: 'constructor' (the Object
      function) and '__proto__' (Object.prototype itself). users[key] finds
      them when no record is filed under key. */
  const InheritedKeys: set<string> := {"constructor", "__proto__"}

  /** userExists as written: the truthiness of users[email.toLowerCase()] on
      a plain object, inherited properties included. */
  predicate UserExistsAsWritten(users: Users, email: string)
  {
    Key(email) in users || Key(email) in InheritedKeys
  }

  /** sendPasswordToEmail as written: getUser's inherited value is truthy
      too, so the success notice is sent. */
  function SendPasswordAsWritten(users: Users, email: string): (n: Notice)
    ensures n.success <==> UserExistsAsWritten(users, email)
  {
    if UserExistsAsWritten(users, email) then Notice(true, PasswordSent) else Notice(false, EmailNotFound)
  }

  /** The discrepancy: "Constructor" names no user of the seed directory, yet
      the code as written reports it as existing and claims a password was
      sent; the model's lookups, which only see filed records, do not. */
  lemma InheritedKeyFinding()
    ensures UserExistsAsWritten(Seed, "Constructor") && !UserExists(Seed, "Constructor")
    ensures SendPasswordAsWritten(Seed, "Constructor").success
    ensures !SendPasswordToEmail(Seed, "Constructor").success
  {
    ConstructorKey();
    assert "constructor" !in Seed by {
      assert |"constructor"| == 11;
    }
  }

  lemma ConstructorKey()
    ensures Key("Constructor") == "constructor"
  {
    Text.ToLowerIs("Constructor", "constructor");
  }

  /** registerUser as written: its duplicate check is userExists as
      written, so an email whose key is an inherited member is refused as
      already registered and nothing is stored. */
  function RegisterAsWritten(users: Users, record: UserRecord): (g: Registration)
    ensures g.result.Err? <==> UserExistsAsWritten(users, record.email)
    ensures g.result.Err? ==> g.users == users && g.result.error == DuplicateMessage
    ensures g.result.Ok? ==> g.result.value == record && g.users == users[Key(record.email) := record]
  {
    Text.ToLowerIdempotent(record.email);
    var key := Text.ToLower(record.email);
    if UserExistsAsWritten(users, key) then Registration(users, Err(DuplicateMessage))
    else Registration(users[key := record], Ok(record))
  }

  /** The same discrepancy at registration: a new account for "Constructor"
      is refused by the code as written, while the model files it. */
  lemma InheritedRegistrationFinding(record: UserRecord)
    requires record.email == "Constructor"
    ensures RegisterAsWritten(Seed, record) == Registration(Seed, Err(DuplicateMessage))
    ensures Register(Seed, record).result == Ok(record)
    ensures GetUser(Register(Seed, record).users, "Constructor") == Some(record)
  {
    ConstructorKey();
    assert "constructor" !in Seed by {
      assert |"constructor"| == 11;
    }
  }

  /** Apart from those two names the code as written and the model agree. */
  lemma AsWrittenAgreesElsewhere(users: Users, email: string, record: UserRecord)
    requires Key(email) !in InheritedKeys
    requires Key(record.email) !in InheritedKeys
    ensures UserExistsAsWritten(users, email) <==> UserExists(users, email)
    ensures SendPasswordAsWritten(users, email) == SendPasswordToEmail(users, email)
    ensures RegisterAsWritten(users, record) == Register(users, record)
  {
  }

  /** The directory object: the in-memory map and the persisted snapshot
      slot it writes on every registration. */
  class Directory {
    var users: Users
    var stored: Option<Users>

    /** Module load: the seed map, then loadFromStorage. */
    constructor (persisted: Option<Users>)
      ensures users == Merge(Seed, persisted)
      ensures stored == persisted
    {
      users := Seed;
      stored := persisted;
      new;
      LoadFromStorage();
    }

    method SaveToStorage()
      modifies this
      ensures stored == Some(users)
      ensures users == old(users)
    {
      stored := Some(users);
    }

    method LoadFromStorage()
      modifies this
      ensures users == Merge(old(users), stored)
      ensures stored == old(stored)
    {
      if stored.Some? {
        users := users + stored.value;
      }
    }

    method RegisterUser(record: UserRecord) returns (r: Result<UserRecord, string>)
      modifies this
      ensures users == Register(old(users), record).users
      ensures r == Register(old(users), record).result
      ensures stored == if r.Ok? then Some(users) else old(stored)
    {
      var email := Text.ToLower(record.email);
      if UserExists(users, email) {
        return Err(DuplicateMessage);
      }
      users := users[email := record];
      SaveToStorage();
      return Ok(record);
    }
  }

  /** A registration survives a reload: the snapshot written by a successful
      registration, merged over the seed, still holds the new record. */
  lemma ReloadKeepsRegistered(users: Users, record: UserRecord)
    requires !UserExists(users, record.email)
    ensures var after := Register(users, record).users;
      GetUser(Merge(Seed, Some(after)), record.email) == Some(record)
  {
  }

  /** The walk-through of a fresh learner: registering "t@t.com" makes it the
      only new entry; "T@T.com" then authenticates, a wrong password does not. */
  lemma LearnerScenario()
    ensures var record := UserRecord("t@t.com", "T", "learner", "Abc12345!", map[]);
      var g := Register(Seed, record);
      && g.result == Ok(record)
      && g.users.Keys == Seed.Keys + {"t@t.com"}
      && AuthenticateUser(g.users, "T@T.com", "Abc12345!") == Some(record)
      && AuthenticateUser(g.users, "t@t.com", "wrong") == None
  {
    var record := UserRecord("t@t.com", "T", "learner", "Abc12345!", map[]);
    Text.ToLowerIs("t@t.com", "t@t.com");
    Text.ToLowerIs("T@T.com", "t@t.com");
    assert !UserExists(Seed, "t@t.com");
  }
}
