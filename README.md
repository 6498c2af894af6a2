# SkillForge authentication and identity, modelled in Dafny

This project models how SkillForge, a learning-management system, tells who
a user is. It covers both halves of the system.

- **Frontend (JavaScript).**
  - The mock user directory kept in browser storage (`userDatabase.js`).
  - The session kept by the API client (`api.js`): token and user slots,
    authorization headers, and the normalisation of response envelopes.
  - The route guard (`AuthGuard.jsx`).
  - The guardian sign-in / sign-up page (`GuardianLogin.jsx`).
- **Backend (Java/Spring).**
  - The token utility (`JwtUtil.java`). Despite its name, it makes Base64
    tokens of `email:millis`, not signed JWTs.
  - The `User` entity with its `Role` enum and bean-validation constraints.
  - The users repository.
  - `UserService`.
  - The register and login endpoints of `AuthController`.
  - The `AuthResponse` DTO.

Files and modules:

| file | module | models |
|---|---|---|
| `wrappers.dfy` | `Wrappers` | Option / Result |
| `json.dfy` | `Json` | parsed JSON values |
| `text.dfy` | `Text` | JS `toLowerCase`, Java `toUpperCase`, UTF-16 length, decimal rendering, `split(":")[0]` |
| `bytes.dfy` | `Bytes` | the byte type shared by the codecs |
| `base64.dfy` | `Base64` | `java.util.Base64` basic encoder and decoder |
| `utf8.dfy` | `Utf8` | `String.getBytes()` / `new String(bytes)` in UTF-8 |
| `java_string.dfy` | `JavaString` | `String.hashCode()` |
| `jwt.dfy` | `JwtUtil` | token generation, extraction, validity |
| `user_database.dfy` | `UserDatabase` | the frontend directory (class `Directory`) |
| `session.dfy` | `Session` | the API client's session (class `ClientSession`) |
| `auth_guard.dfy` | `AuthGuard` | the guard's render / redirect decision |
| `guardian_login.dfy` | `GuardianLogin` | the page's state (class `LoginPage`) |
| `user_model.dfy` | `UserModel` | `User`, `Role`, the entity constraints |
| `user_repository.dfy` | `UserRepository` | the users table (class `UserRepository`) |
| `user_service.dfy` | `UserService` | the service (class `UserService`) |
| `auth_controller.dfy` | `AuthController` | the endpoints (class `AuthController`) |
| `auth_response.dfy` | `AuthResponseDto` | the response DTO |

State the source updates in place is a Dafny class. This covers the
directory and its storage slot, the session's two storage slots, the
page's state, and the repository's rows with its identity counter. Each
method's `ensures` gives the whole new state in terms of a specification
function of the old state. The lemmas prove that function's properties.
Pure code is modelled as functions and lemmas.

Modelling conventions:

- A thrown exception is an `Err` carrying its message. A Java `null` or a
  JavaScript `undefined` is `None`. An absent key in a request body reads as
  `null`.
- Browser storage slots hold parsed values, and JSON text is not modelled.
  The one text that matters is stored separately: `JSON.stringify(undefined)`
  stores the text "undefined", which `JSON.parse` later rejects.
- Parameters stand in for the clock (`Date.now()`,
  `System.currentTimeMillis()`), the password encoder and the `@Email`
  format check.

Where the descriptive documentation and the code disagree, the model
follows the code:

- `getCurrentUser` (`frontend/src/services/api.js:52-55`) throws when the
  stored user cannot be parsed. It does not return null. This happens
  after a successful login whose response has no `user`.
- The list getters (`frontend/src/services/api.js:58-64`) return an empty
  array only when `success` is false. A successful envelope without `data`
  yields `undefined`.
- The backend token is a Base64 string, not a JWT. A token is valid when
  its decoded text contains a ':'.
- Java's `toUpperCase` can lengthen a string (ß→SS, ﬆ→ST). As a result
  `updateUserRole` accepts "ﬆudent" as STUDENT.

## Model

| member | source | states |
|---|---|---|
| Text.LowerChar | frontend/src/utils/userDatabase.js:31 | an ASCII upper-case letter maps to its lower-case letter and the Kelvin sign to 'k'; every other character is kept; no result is upper case |
| Text.ToLower | frontend/src/utils/userDatabase.js:31-39 | the modelled lower-casing keeps the length and lower-cases each character on its own |
| Text.UpperChars | backend/src/main/java/com/skillforge/service/UserService.java:42 | Java upper-casing of one character gives one to three characters, none of them lower case; an ASCII lower-case letter becomes its upper-case letter, and a character with no special mapping is kept |
| Text.UpperCharsStable | backend/src/main/java/com/skillforge/service/UserService.java:42 | the upper case of a character upper-cases to itself |
| Text.ToUpper | backend/src/main/java/com/skillforge/service/UserService.java:42 | toUpperCase gives at least as many and at most three times as many characters, none of them an ASCII lower-case letter |
| Text.ToLowerEqualIff | frontend/src/utils/userDatabase.js:30-35 | two emails get the same directory key exactly when they are equal up to ASCII letter case and the Kelvin sign |
| Text.ToLowerIdempotent | frontend/src/utils/userDatabase.js:39-40 | lower-casing an already lower-cased key changes nothing, so registerUser's lower-cased key is found again by userExists |
| Text.ToUpperAppend | backend/src/main/java/com/skillforge/service/UserService.java:42 | Java upper-casing maps each character independently: upper(a+b) = upper(a)+upper(b) |
| Text.ToUpperIdempotent | backend/src/main/java/com/skillforge/service/UserService.java:42 | upper-casing twice gives the same string as once |
| Text.Decimal | frontend/src/pages/GuardianLogin.jsx:52 | Date.now().toString() is a non-empty text of decimal digits, with a leading '-' only for a negative reading |
| Text.NatDigitsValue | frontend/src/pages/GuardianLogin.jsx:52 | the digits of a non-negative number read back as that number |
| Text.DecimalValue | frontend/src/pages/GuardianLogin.jsx:52 | the decimal text of any integer reads back as that integer, with the '-' exactly when it is negative |
| Text.LastChars | frontend/src/pages/GuardianLogin.jsx:52 | slice(-n) has n characters, or all of a shorter text, and is the text's tail |
| Text.PrefixBefore | backend/src/main/java/com/skillforge/security/JwtUtil.java:24 | split(":")[0] is a prefix of the text with no ':' in it, ending at the first ':' or at the end of the text |
| Text.PrefixBeforeAppend | backend/src/main/java/com/skillforge/security/JwtUtil.java:24 | what follows the first ':' never affects the extracted field |
| Text.PrefixBeforeAbsent | backend/src/main/java/com/skillforge/security/JwtUtil.java:24 | text without a ':' is extracted whole |
| Base64.CharSextet | backend/src/main/java/com/skillforge/security/JwtUtil.java:23 | a character decodes to a 6-bit value exactly when it belongs to the Base64 alphabet, and inverts SextetChar |
| Base64.Encode | backend/src/main/java/com/skillforge/security/JwtUtil.java:14 | the encoding has 4·⌈n/3⌉ characters |
| Base64.EncodeFinal | backend/src/main/java/com/skillforge/security/JwtUtil.java:14 | the last one or two bytes become one unit of four characters ending in '=', with "==" exactly for a single byte |
| Base64.EncodeWellFormed | backend/src/main/java/com/skillforge/security/JwtUtil.java:14 | the encoding is whole units of alphabet characters, with at most two '=' and only at the very end |
| Base64.DecodeEncode | backend/src/main/java/com/skillforge/security/JwtUtil.java:14 | decoding the encoder's output gives back the original bytes |
| Base64.DecodeUnit | backend/src/main/java/com/skillforge/security/JwtUtil.java:23 | four characters decode as a whole unit exactly when all four are in the alphabet |
| Base64.DecodeLast | backend/src/main/java/com/skillforge/security/JwtUtil.java:23 | a text longer than four characters that does not start with a whole unit makes the decoder throw |
| Base64.DecodeEncodedUnit | backend/src/main/java/com/skillforge/security/JwtUtil.java:23 | the unit encoding three bytes decodes to those three bytes |
| Base64.DecodeUnitPrefix | backend/src/main/java/com/skillforge/security/JwtUtil.java:23 | the unit of three bytes in front of a text that decodes to further bytes decodes to all of them, in order |
| Base64.Rfc4648ShortVectors | backend/src/main/java/com/skillforge/security/JwtUtil.java:14 | "f" encodes to "Zg==" and "fo" to "Zm8=" (section 10 of RFC 4648) |
| Base64.Rfc4648Foo | backend/src/main/java/com/skillforge/security/JwtUtil.java:14 | "foo" encodes to "Zm9v" (section 10 of RFC 4648) |
| Base64.Rfc4648Bar | backend/src/main/java/com/skillforge/security/JwtUtil.java:14 | "bar" encodes to "YmFy" |
| Base64.Rfc4648Foobar | backend/src/main/java/com/skillforge/security/JwtUtil.java:14 | "foobar" encodes to "Zm9vYmFy" (section 10 of RFC 4648) |
| Base64.Rfc4648FoobarDecodes | backend/src/main/java/com/skillforge/security/JwtUtil.java:23 | "Zm9vYmFy" decodes to "foobar" |
| Base64.Decode | backend/src/main/java/com/skillforge/security/JwtUtil.java:23 | a text that decodes has no final group of one character, every character in the alphabet or '=', and three bytes for every four characters give or take one padded unit (so a foreign character or a lone last character makes the decoder throw) |
| Utf8.EncodeChar | backend/src/main/java/com/skillforge/security/JwtUtil.java:14 | each character takes 1 to 4 bytes; only ASCII takes one; multi-byte sequences start at 0xC2 or above and continue with continuation bytes |
| Utf8.Encode | backend/src/main/java/com/skillforge/security/JwtUtil.java:14 | getBytes() gives one to four bytes per character |
| Utf8.DecodeFirst | backend/src/main/java/com/skillforge/security/JwtUtil.java:23 | decoding consumes 1 to 4 bytes per character and yields ':' exactly when it starts at byte 0x3A |
| Utf8.DecodeTwoByteChar | backend/src/main/java/com/skillforge/security/JwtUtil.java:23 | a character from U+0080 to U+07FF is read back from its two bytes, whatever follows |
| Utf8.DecodeThreeByteChar | backend/src/main/java/com/skillforge/security/JwtUtil.java:23 | a character from U+0800 to U+FFFF other than a surrogate is read back from its three bytes |
| Utf8.DecodeFourByteChar | backend/src/main/java/com/skillforge/security/JwtUtil.java:23 | a character above U+FFFF is read back from its four bytes |
| Utf8.DecodeEncode | backend/src/main/java/com/skillforge/security/JwtUtil.java:23 | new String(s.getBytes()) == s |
| Utf8.Decode | backend/src/main/java/com/skillforge/security/JwtUtil.java:23 | new String(bytes) has one character for every one to four bytes |
| Utf8.DecodeHasColonIff | backend/src/main/java/com/skillforge/security/JwtUtil.java:33 | decoded text contains ':' exactly when the bytes contain 0x3A |
| Utf8.EncodeHasColonIff | backend/src/main/java/com/skillforge/security/JwtUtil.java:14 | encoded bytes contain 0x3A exactly when the text contains ':' |
| JwtUtil.Payload | backend/src/main/java/com/skillforge/security/JwtUtil.java:13 | the payload is the email, a ':' and the clock reading, whose digits read back as that reading; its text before the first ':' is the email's own |
| JwtUtil.GenerateToken | backend/src/main/java/com/skillforge/security/JwtUtil.java:10-19 | the token is a non-empty, well-formed Base64 text |
| JwtUtil.DecodedGenerated | backend/src/main/java/com/skillforge/security/JwtUtil.java:13-14 | a generated token decodes to "email:millis" |
| JwtUtil.ExtractGeneratedPrefix | backend/src/main/java/com/skillforge/security/JwtUtil.java:21-28 | extracting from a generated token gives the email up to its first ':' |
| JwtUtil.ExtractGenerated | backend/src/main/java/com/skillforge/security/JwtUtil.java:21-28 | for an email without ':' extraction gives back exactly the email |
| JwtUtil.GeneratedIsValid | backend/src/main/java/com/skillforge/security/JwtUtil.java:30-37 | every generated token is valid |
| JwtUtil.IsTokenValid | backend/src/main/java/com/skillforge/security/JwtUtil.java:30-37 | a token is valid exactly when it Base64-decodes and its bytes contain ':'; a token the decoder rejects is invalid |
| JwtUtil.ExtractEmail | backend/src/main/java/com/skillforge/security/JwtUtil.java:21-28 | the extracted email never contains ':'; a token the decoder rejects extracts to "unknown@example.com"; any other answer is a prefix of the decoded text, and a decoded text without ':' is returned whole |
| JwtUtil.DecodedText | backend/src/main/java/com/skillforge/security/JwtUtil.java:23 | the token has a decoded text exactly when Base64 accepts it, and that text contains ':' exactly when the bytes contain 0x3A |
| JwtUtil.FirstField | backend/src/main/java/com/skillforge/security/JwtUtil.java:24 | split(":")[0] throws exactly on a non-empty text of colons only; otherwise it is a ':'-free prefix of the text that ends at its first ':' or at its end |
| JwtUtil.ColonOnlyToken | backend/src/main/java/com/skillforge/security/JwtUtil.java:24-26 | "Og==" (the text ":") is valid, yet extraction throws on the empty split and falls back to "unknown@example.com" |
| JwtUtil.ExtractFromDecodable | backend/src/main/java/com/skillforge/security/JwtUtil.java:21-28 | for every token that decodes, extraction gives the decoded text before its first ':' (all of it when it has none), and the unknown address only for a non-empty text of colons |
| JavaString.Units | backend/src/main/java/com/skillforge/controller/AuthController.java:34 | the UTF-16 code units of a string: as many as its UTF-16 length, each below 0x10000 |
| JavaString.ToInt32 | backend/src/main/java/com/skillforge/controller/AuthController.java:34 | the signed 32-bit reading of a 32-bit pattern lies in the int range and agrees with it modulo 2^32 |
| JavaString.HashCode | backend/src/main/java/com/skillforge/controller/AuthController.java:34 | hashCode is a signed 32-bit int |
| JavaString.HashAppend | backend/src/main/java/com/skillforge/controller/AuthController.java:34 | appending a unit gives 31·h + unit modulo 2^32 |
| JavaString.HashCodeExamples | backend/src/main/java/com/skillforge/controller/AuthController.java:34 | "" hashes to 0, "a" to 97 and "ab" to 3105 |
| UserDatabase.UserExists | frontend/src/utils/userDatabase.js:30-32 | a user exists only when some key equals the email up to letter case, and, with every key lower case, whenever one does |
| UserDatabase.GetUser | frontend/src/utils/userDatabase.js:34-36 | a record is found exactly when userExists holds, and it is the one under the lower-cased email |
| UserDatabase.AuthenticateUser | frontend/src/utils/userDatabase.js:48-54 | authentication succeeds exactly when the user exists with that very password, and returns that record |
| UserDatabase.LookupIgnoresCase | frontend/src/utils/userDatabase.js:30-54 | userExists, getUser and authenticateUser give the same answer for emails that differ only in letter case |
| UserDatabase.AuthenticationFailuresAlike | frontend/src/utils/userDatabase.js:48-54 | an unknown email and a wrong password both give null, so they cannot be told apart |
| UserDatabase.Register | frontend/src/utils/userDatabase.js:38-46 | registration fails exactly when the email exists, and then returns the duplicate message and changes nothing; otherwise it adds exactly the given record under the lower-cased key, leaves every other entry alone and returns the record |
| UserDatabase.RegisterAsWritten | frontend/src/utils/userDatabase.js:38-46 | registration as written refuses exactly when userExists as written (inherited keys included) says the email exists, and otherwise stores the record under the lower-cased key |
| UserDatabase.InheritedRegistrationFinding | frontend/src/utils/userDatabase.js:30-46 | on the seed directory, "Constructor" is refused as a duplicate by the code as written but registered by the model |
| UserDatabase.RegisteredIsFound | frontend/src/utils/userDatabase.js:38-54 | after registration the record is found, and authenticates with its password, under any casing of its email |
| UserDatabase.RegisterTwiceRejected | frontend/src/utils/userDatabase.js:38-46 | a second registration under an email equal up to case is refused and leaves the first record in place |
| UserDatabase.Merge | frontend/src/utils/userDatabase.js:60-65 | loading spreads the stored snapshot over the current users: stored keys win, other keys stay, and nothing happens when nothing is stored |
| Text.Utf16Length | frontend/src/utils/userDatabase.js:74 | the UTF-16 length of a text lies between its number of characters and twice that |
| Text.Utf16LengthBmp | frontend/src/utils/userDatabase.js:74 | a text of characters below U+10000 has as many UTF-16 units as characters |
| UserDatabase.ValidatePassword | frontend/src/utils/userDatabase.js:67-81 | the result is null or one of the five policy messages |
| UserDatabase.ValidatePasswordAccepts | frontend/src/utils/userDatabase.js:67-81 | a password is accepted exactly when it meets all five rules |
| UserDatabase.ValidatePasswordFirstFailure | frontend/src/utils/userDatabase.js:74-78 | the message returned is that of rule k exactly when rule k fails and every earlier rule holds |
| UserDatabase.ShortPasswordExample | frontend/src/utils/userDatabase.js:74 | "short" gets the length message |
| UserDatabase.NoUppercaseExample | frontend/src/utils/userDatabase.js:75 | "longenough1" gets the uppercase message, not the special-character one |
| UserDatabase.AcceptedPasswordExample | frontend/src/utils/userDatabase.js:67-81 | "Abc12345!" is accepted |
| UserDatabase.SendPasswordToEmail | frontend/src/utils/userDatabase.js:83-93 | success exactly when the user exists; the message is "Email not found" or the sent notice accordingly |
| UserDatabase.SendPasswordAsWritten | frontend/src/utils/userDatabase.js:83-93 | the code as written reports success whenever the key is present or is an inherited object member |
| UserDatabase.InheritedKeyFinding | frontend/src/utils/userDatabase.js:30-35 | on the seed directory "Constructor" passes userExists as written although no user has it, so the reset reports success |
| UserDatabase.AsWrittenAgreesElsewhere | frontend/src/utils/userDatabase.js:30-46 | for every key other than "constructor" and "__proto__" the code as written agrees with the corrected lookup, password reset and registration |
| UserDatabase.Directory.constructor | frontend/src/utils/userDatabase.js:2-28 | the directory starts as the seed users merged with what storage holds |
| UserDatabase.Directory.SaveToStorage | frontend/src/utils/userDatabase.js:56-58 | storage then holds exactly the current users, which are unchanged |
| UserDatabase.Directory.LoadFromStorage | frontend/src/utils/userDatabase.js:60-65 | the users become the merge of the old users with the stored snapshot |
| UserDatabase.Directory.RegisterUser | frontend/src/utils/userDatabase.js:38-46 | users and result follow Register; storage is rewritten with the new users exactly when registration succeeded |
| UserDatabase.ReloadKeepsRegistered | frontend/src/utils/userDatabase.js:43-65 | a record registered and saved is still found after the seed is reloaded with that snapshot |
| UserDatabase.LearnerScenario | frontend/src/utils/userDatabase.js:30-54 | registering "t@t.com" on the seed adds only that key; "T@T.com" then authenticates with the right password and not with a wrong one |
| Session.AuthHeaders | frontend/src/services/api.js:3-9 | Content-Type is always JSON; an Authorization header is present exactly when the stored token is truthy; no other header exists |
| Session.HeaderCarriesToken | frontend/src/services/api.js:7 | the Authorization header is "Bearer " followed by the stored token |
| Session.ErrorMessage | frontend/src/services/api.js:21 | the thrown message is the server's message when non-empty, else the fallback |
| Session.AfterAuth | frontend/src/services/api.js:20-26 | storage changes only on an accepted response with a truthy token, which is then stored together with a user; a paired session stays paired |
| Session.AfterLogout | frontend/src/services/api.js:47-50 | after logout both slots are empty, no token is sent and getCurrentUser returns null |
| Session.CurrentUser | frontend/src/services/api.js:52-55 | getCurrentUser is null with no stored user, the stored value otherwise, and throws exactly when the stored text is "undefined" |
| Session.AuthFailureKeepsStorage | frontend/src/services/api.js:19-22 | a failed register or login throws the server's message or the fallback and leaves storage as it was |
| Session.AuthSuccessStores | frontend/src/services/api.js:23-27 | a successful response returns data.user; token and user are stored exactly when the token is truthy |
| Session.SessionStaysPaired | frontend/src/services/api.js:13-50 | the token and user slots are present together or absent together, before and after each call |
| Session.LogoutIdempotent | frontend/src/services/api.js:47-55 | logging out twice is logging out once, and getCurrentUser then returns null |
| Session.CurrentUserAfterLogin | frontend/src/services/api.js:40-55 | after a login that stores a token, getCurrentUser returns the user sent, or throws when none was sent |
| Session.ListPayload | frontend/src/services/api.js:58-64 | a list getter returns data when success is true, even when data is undefined, and an empty array otherwise |
| Session.Fallback | frontend/src/services/api.js:73 | every throwing call's fallback message reads "Failed to …" |
| Session.CallResult | frontend/src/services/api.js:66-75 | a throwing call returns data exactly when success is true, and otherwise throws a non-empty error that is the server's message or the call's fallback |
| Session.GetterSwallowsFailure | frontend/src/services/api.js:58-75 | a list getter and a throwing call agree on a successful envelope; on a failed one the getter answers [] where the call throws |
| Session.ClientSession.Authenticate | frontend/src/services/api.js:13-45 | the result and the new slots are AuthResult and AfterAuth of the response |
| Session.ClientSession.Register | frontend/src/services/api.js:13-28 | register's result and new slots, with the "Registration failed" fallback |
| Session.ClientSession.Login | frontend/src/services/api.js:30-45 | login's result and new slots, with the "Login failed" fallback |
| Session.ClientSession.Logout | frontend/src/services/api.js:47-50 | both slots are cleared |
| AuthGuard.Guard | frontend/src/components/AuthGuard.jsx:4-16 | the children are rendered exactly when the token is truthy; otherwise the guard renders nothing and redirects to redirectTo |
| AuthGuard.GuardDefault | frontend/src/components/AuthGuard.jsx:4 | without a redirectTo the guard redirects to "/" |
| AuthGuard.RenderOrRedirect | frontend/src/components/AuthGuard.jsx:7-15 | each activation (mount) either shows the children or redirects, never both and never neither |
| AuthGuard.EmptyTokenRedirects | frontend/src/components/AuthGuard.jsx:9-15 | an empty stored token is treated like no token |
| AuthGuard.GuardAfterLogout | frontend/src/components/AuthGuard.jsx:7-15 | after logout every guarded page redirects |
| AuthGuard.GuardAfterAuth | frontend/src/components/AuthGuard.jsx:14-15 | after a successful login with a token the guard renders its children; after a failed one the decision is unchanged |
| GuardianLogin.SetField | frontend/src/pages/GuardianLogin.jsx:28 | updating one field replaces that field and keeps the others |
| GuardianLogin.FormErrors | frontend/src/pages/GuardianLogin.jsx:18-25 | the form is valid exactly when email and password are non-empty; otherwise the only error is the general "fill in all fields" |
| GuardianLogin.GuardianId | frontend/src/pages/GuardianLogin.jsx:52 | the id is "GRD" and one to three characters; once the clock reads at least 100 they are the clock's hundreds, tens and units digits |
| GuardianLogin.LastThreeDigits | frontend/src/pages/GuardianLogin.jsx:52 | once the clock reads at least 100, slice(-3) of its text is its hundreds, tens and units digits |
| GuardianLogin.NewGuardian | frontend/src/pages/GuardianLogin.jsx:48-55 | the sign-up record carries the form's email, name and password, the guardian role, the clock's guardian id and the 'Parent' relationship |
| GuardianLogin.SignInProfile | frontend/src/pages/GuardianLogin.jsx:68-73 | the sign-in profile copies the record's name, email and guardian id; its relationship is the record's when non-empty and 'Parent' otherwise, so never empty |
| GuardianLogin.SignInOutcome | frontend/src/pages/GuardianLogin.jsx:66-79 | sign-in navigates with the record's profile exactly when authentication finds a guardian, refuses as not a guardian exactly when it finds another role, and reports bad credentials exactly when it finds no one |
| GuardianLogin.Submit | frontend/src/pages/GuardianLogin.jsx:39-81 | missing email or password stops first; a sign-up without a name stops next; every other sign-up navigates with the form's email and name; the directory changes only when a sign-up files a new email |
| GuardianLogin.InputErrors | frontend/src/pages/GuardianLogin.jsx:27-37 | the edited field's error is blanked; in sign-up mode an email with '@' that exists gets the duplicate hint; no other error is touched and, without the hint, no key is added |
| GuardianLogin.MissingFieldsStops | frontend/src/pages/GuardianLogin.jsx:39-40 | an empty email or password changes no user and navigates nowhere |
| GuardianLogin.MissingNameStops | frontend/src/pages/GuardianLogin.jsx:43-46 | a sign-up without a name registers nothing and navigates nowhere |
| GuardianLogin.SignUpRegisters | frontend/src/pages/GuardianLogin.jsx:42-63 | a complete sign-up for a new email files the guardian record and navigates with its profile |
| GuardianLogin.SignUpIgnoresDuplicate | frontend/src/pages/GuardianLogin.jsx:56-63 | a sign-up for an existing email changes no user but still navigates to the dashboard |
| GuardianLogin.SignInClassification | frontend/src/pages/GuardianLogin.jsx:64-80 | sign-in navigates exactly for an authenticated guardian, reports "not a guardian account" exactly for other authenticated users, and reports bad credentials otherwise |
| GuardianLogin.FailureMessagesDiffer | frontend/src/pages/GuardianLogin.jsx:75-79 | the two sign-in failures show different messages |
| GuardianLogin.DuplicateHint | frontend/src/pages/GuardianLogin.jsx:27-37 | typing a registered email containing '@' during sign-up shows the duplicate hint; every other edit keeps the set of error keys |
| GuardianLogin.SignInOf | frontend/src/pages/GuardianLogin.jsx:66-79 | an authenticated guardian signs in with its profile and any other authenticated user is refused as not a guardian |
| GuardianLogin.SeedAuthenticates | frontend/src/utils/userDatabase.js:48-54 | a seeded user authenticates under its own lower-case key with its stored password |
| GuardianLogin.SubmitSignUp | frontend/src/pages/GuardianLogin.jsx:42-63 | a complete sign-up files the new guardian through registerUser and hands its profile to the dashboard; it registers exactly when registerUser succeeds |
| GuardianLogin.SeedGuardianSignsIn | frontend/src/pages/GuardianLogin.jsx:66-74 | the seeded guardian signs in with the stored profile |
| GuardianLogin.SeedLearnerNotGuardian | frontend/src/pages/GuardianLogin.jsx:75-76 | the seeded learner's correct credentials are refused as not a guardian account |
| GuardianLogin.LoginPage.constructor | frontend/src/pages/GuardianLogin.jsx:7-15 | the page starts in sign-in mode with an empty form and no errors |
| GuardianLogin.LoginPage.ToggleMode | frontend/src/pages/GuardianLogin.jsx:134 | the mode flips and nothing else changes |
| GuardianLogin.LoginPage.HandleInputChange | frontend/src/pages/GuardianLogin.jsx:27-37 | the form gets the new value and the errors follow InputErrors |
| GuardianLogin.LoginPage.HandleLogin | frontend/src/pages/GuardianLogin.jsx:39-81 | the directory, errors and navigation follow Submit; storage is rewritten exactly when a new guardian is registered |
| GuardianLogin.LoginPage.SignUp | frontend/src/pages/GuardianLogin.jsx:42-63 | without a name only the general error is set; otherwise the guardian record goes through registerUser, storage is rewritten exactly when it was filed, the errors are cleared and the dashboard gets its profile, even for a taken email |
| GuardianLogin.LoginPage.SignIn | frontend/src/pages/GuardianLogin.jsx:64-80 | the sign-in branch: errors and navigation per the sign-in outcome, directory untouched |
| UserModel.RoleValueOf | backend/src/main/java/com/skillforge/model/User.java:45-47 | valueOf succeeds exactly on the three exact names and inverts name() |
| UserModel.RoleNameRoundTrip | backend/src/main/java/com/skillforge/model/User.java:45-47 | every role is found again by its name, and the names differ |
| UserModel.RoleName | backend/src/main/java/com/skillforge/model/User.java:45-47 | a role's name is a non-empty word of upper-case ASCII letters |
| UserModel.Constraints | backend/src/main/java/com/skillforge/model/User.java:17-29 | a valid user has a non-empty email, a non-empty name, and a password of at least three characters (six UTF-16 units) |
| UserModel.ConstraintsIgnoreIdAndRole | backend/src/main/java/com/skillforge/model/User.java:13-32 | validation does not depend on the id or the role |
| UserModel.NewUser | backend/src/main/java/com/skillforge/model/User.java:32-35 | a new user has every field null and the STUDENT role |
| UserModel.NewUserWith | backend/src/main/java/com/skillforge/model/User.java:38-43 | the three-argument constructor sets those fields and the STUDENT role |
| UserModel.NewUserInvalid | backend/src/main/java/com/skillforge/model/User.java:17-35 | a bare new user fails validation |
| UserModel.NewUserWithConstraints | backend/src/main/java/com/skillforge/model/User.java:17-43 | a constructed user is valid exactly when its email is well formed and non-blank, its name is non-blank, and its password is non-blank with at least 6 UTF-16 units |
| UserRepository.UserRepository.FindById | backend/src/main/java/com/skillforge/repository/UserRepository.java:7 | findById finds exactly the row with that id |
| UserRepository.UserRepository.FindByEmail | backend/src/main/java/com/skillforge/repository/UserRepository.java:8-9 | a user is found exactly when some row holds the email, and the row found is stored under its own id |
| UserRepository.UserRepository.Save | backend/src/main/java/com/skillforge/model/User.java:14-32 | save validates, keeps emails unique, inserts under a fresh identity or updates in place, and keeps the table's invariant |
| UserRepository.UserRepository.ExistsByEmail | backend/src/main/java/com/skillforge/repository/UserRepository.java:10 | existsByEmail holds only for a present email and, in a valid table, exactly when findByEmail finds a row |
| UserRepository.FindByEmailFindsRow | backend/src/main/java/com/skillforge/repository/UserRepository.java:8 | looking up a stored row's email finds that row |
| UserService.ParseRole | backend/src/main/java/com/skillforge/service/UserService.java:42 | the role parses exactly when the upper-cased text is a role name, and a failure carries the enum's message |
| UserService.ParseRoleAnyCase | backend/src/main/java/com/skillforge/service/UserService.java:42 | any text that upper-cases to a role name parses to that role |
| UserService.ParseAdmin | backend/src/main/java/com/skillforge/service/UserService.java:42 | "admin" parses to ADMIN |
| UserService.ParseLigatureStudent | backend/src/main/java/com/skillforge/service/UserService.java:42 | "ﬆudent" parses to STUDENT |
| UserService.ParseUnknownRole | backend/src/main/java/com/skillforge/service/UserService.java:42 | "tutor" is refused with "No enum constant …Role.TUTOR" |
| UserService.UserService.Register | backend/src/main/java/com/skillforge/service/UserService.java:14-19 | a taken email gives "Email already exists" and changes nothing; otherwise the result is that of save |
| UserService.UserService.Login | backend/src/main/java/com/skillforge/service/UserService.java:21-28 | an unknown email gives "User not found"; login succeeds exactly when the stored password equals the given one and returns that user |
| UserService.UserService.GetUserById | backend/src/main/java/com/skillforge/service/UserService.java:34-37 | the row with that id, or "User not found" |
| UserService.UserService.GetUserByEmail | backend/src/main/java/com/skillforge/service/UserService.java:46-49 | a stored user with that email, or "User not found" |
| UserService.UserService.UpdateUserRole | backend/src/main/java/com/skillforge/service/UserService.java:39-44 | an unknown id or unparsable role changes nothing; otherwise exactly that row's role changes |
| AuthController.RequestedRole | backend/src/main/java/com/skillforge/controller/AuthController.java:66 | a null role is STUDENT; otherwise the exact name is parsed, case included |
| AuthController.Candidate | backend/src/main/java/com/skillforge/controller/AuthController.java:62-66 | the user is built exactly when a password is given and the role parses, with the encoded password, the request's email and name, and no id |
| AuthController.AuthController.Register | backend/src/main/java/com/skillforge/controller/AuthController.java:45-92 | a taken email gives the 400 reply; a build or save failure gives the 500 reply with no change; otherwise 200 with the saved user under a fresh id and a token generated for the email |
| AuthController.AuthController.Login | backend/src/main/java/com/skillforge/controller/AuthController.java:26-43 | any request with an email succeeds as the stub user, with token "working-token-" + the email's hashCode |
| AuthController.LoginIgnoresPassword | backend/src/main/java/com/skillforge/controller/AuthController.java:26-43 | the login reply does not depend on the password |
| AuthController.LowerCaseRoleRefused | backend/src/main/java/com/skillforge/controller/AuthController.java:66 | with role "admin" the candidate user is never built, so by Register's contract a free email gets the 500 reply (a taken email gets the 400 reply first) |
| AuthController.LengthRuleSeesEncoding | backend/src/main/java/com/skillforge/controller/AuthController.java:65 | the length and blank rules are checked on the encoded password, not the typed one |
| AuthController.ServiceLoginSeesEncoding | backend/src/main/java/com/skillforge/service/UserService.java:24 | the service's login compares the typed password with the stored encoded one, so it refuses a controller-registered user whenever encoding changed the password |
| AuthController.RegisteredTokenNamesUser | backend/src/main/java/com/skillforge/controller/AuthController.java:72 | a registration token is valid and extracts to the registered email when that email has no ':' |
| AuthResponseDto.NewAuthResponse | backend/src/main/java/com/skillforge/dto/AuthResponse.java:11-19 | the response keeps the token and the user's id, name, email and role, with the password null |
| AuthResponseDto.ResponseDropsOnlyPassword | backend/src/main/java/com/skillforge/dto/AuthResponse.java:13-18 | the response user is the given user with only the password cleared; applying it again changes nothing |
| AuthResponseDto.ResponseIgnoresPassword | backend/src/main/java/com/skillforge/dto/AuthResponse.java:18 | users differing only in password give the same response |

## Left out

- HTTP transport is not modelled, and neither is `fetch`. A response body
  that is not JSON is not modelled either. Each call is given the parsed
  response: `response.ok` and the envelope's fields.
- JSON text is not modelled. Storage slots hold parsed values, apart from
  the text "undefined" that `JSON.stringify(undefined)` stores.
- Browser storage quota errors and corrupt directory snapshots are not
  modelled.
- `console.log` and `System.out.println` output is not modelled.
- Password visibility toggles and the Enter-key handler are not modelled.
  The handler calls the same `handleLogin`.
- React navigation is recorded as the last profile handed to the
  dashboard. Routing is not modelled.
- Concurrency, and React's batching of state updates, are not modelled.
  Each handler runs to completion on the state it starts from.
- Only the session-relevant parts of the API client are modelled: each
  list getter and mutation is one instance of `ListPayload` or
  `CallResult`. Their URLs and request bodies are not modelled.
- The text cases are limited to two mappings.
  - JavaScript `toLowerCase` is modelled for ASCII and the Kelvin sign
    only.
  - Java `toUpperCase` is modelled only for the characters whose upper
    case contains an ASCII letter.
  - Other Unicode case mappings, and the default locale (for example
    Turkish), are not modelled.
- Text.ToUpper: it keeps every other non-ASCII character unchanged. So for
  such text the exact "No enum constant" message in `UpdateUserRole` is
  only as precise as that.
- Utf8.Encode and Utf8.Decode: `getBytes()` and `new String(bytes)` use
  the platform default charset, and no Java version or charset is fixed in
  the source. The model assumes UTF-8, which is the default since Java 18.
  Under another default, a non-ASCII email gives other token bytes and
  another extracted text.
- Utf8.Decode: it replaces each byte of a malformed sequence with U+FFFD,
  where Java may use one U+FFFD for a longer malformed run. Only the
  presence of ':', the length bounds and the round trip are proved, and
  these do not depend on that difference. Lone surrogates are not modelled.
- AuthGuard.RenderOrRedirect: it covers one activation (mount) of the
  guard. The effect depends only on `navigate` and `redirectTo`, so a
  re-render without a remount re-reads the token for the render but issues
  no redirect. A token cleared while the guard stays mounted therefore
  renders null without a redirect; such re-renders are not modelled.
- Session.CurrentUser: the error for the stored text "undefined" is the
  constant `UnparsableUser`, which stands for the browser's `SyntaxError`.
  Its exact wording varies between browsers and is not modelled.
- UserService.ParseRole: the error for a null role is the constant
  `NullRole` ("NullPointerException"), which stands for the exception Java
  throws. Its message text is not modelled.
- JwtUtil.GenerateToken: the `catch` branch (`"simple-token-" + hashCode`)
  is unreachable, because encoding a string cannot throw. It is left out.
- The clock, the password encoder and the `@Email` format check are not
  modelled. They are parameters.
- The database's collation is not modelled. Emails are compared exactly,
  while a case-insensitive column collation would match more rows.
- `findById(null)` is not modelled. Ids are plain integers.
- `findUserByEmail` finding several rows is excluded by the unique column.
- `GlobalExceptionHandler` and the JSON shape of thrown errors are not
  modelled. An exception from the login stub (a null email) is `None`.
- `UserService.getAllUsers` is not modelled. It is the repository's
  `findAll`. The rest of the backend's controllers and entities are not
  part of this model.
- AuthController.AuthController.Register: JPA flush-time failures are
  not modelled. Its 500 reply covers only a null password, an unknown role,
  a constraint violation and a duplicate email.

## Findings

| source | as written | input that shows it | evidently intended | confidence | as-written member | corrected member |
|---|---|---|---|---|---|---|
| frontend/src/utils/userDatabase.js:30-35 | `userExists` and `getUser` index a plain object, so the inherited members `constructor` and `__proto__` count as users | `sendPasswordToEmail("Constructor")` on the seed directory reports that the password was sent, for a user that does not exist | only registered emails exist, so the reply is "Email not found" | high; not executed | UserDatabase.InheritedKeyFinding | UserDatabase.SendPasswordToEmail |
| frontend/src/utils/userDatabase.js:38-46 | `registerUser` checks for a duplicate with `userExists`, which also sees the inherited members `constructor` and `__proto__` | `registerUser` with email "Constructor" on the seed directory returns the duplicate error and stores nothing, though no such user exists | a new email is registered and stored | high; not executed | UserDatabase.InheritedRegistrationFinding | UserDatabase.Register |
