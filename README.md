# Authentication controller: sign-in and sign-up

A Dafny model of the authentication controller of an order-management
back end (`controllers/auth.js`). The controller has two handlers.

- `signin` checks that an email and a password are present. It looks the
  email up in the `users` table, verifies the password against the first row
  returned, and requires `is_active` to be 1. It then issues a JWT whose
  claims are that row's `id`, `name` and `email` together with the request's
  IP and user agent. The token expires in 12 hours and is signed RS256 with
  the server's private key.
- `signup` checks that a name, an email and a password are present. It checks
  the email against `regExp1` or `regExp2`, refuses an email that is already
  stored, and inserts one row holding the given name, the given email and
  the bcrypt hash of the password.

The model has four modules.

- `IdentityFormat` (`identity_format.dfy`) writes `regExp1` and `regExp2` as
  predicates over strings, one predicate per group of each expression. It
  proves a character-level description of the dotted local part and of the
  dotted host labels. It also proves concrete accepted and rejected inputs.
- `Users` (`users.dfy`) models the `users` table as a sequence of rows in
  table order. `Select` is the `SELECT … WHERE email = ?` statement and
  `FirstWithEmail` is its reference for "the first matching row". The class
  `UsersTable` holds the rows and is changed in place by `Insert`.
- `Auth` (`auth.dfy`) holds the handlers. `SignIn` is a pure function from
  the request and the table to an outcome (`Err(status, message)`,
  `StoreErr` or `Ok(token)`). `SignUp` is a method on a `UsersTable` with
  early returns, proved against the specification functions `SignUpResult`
  and `SignUpStep`. `SignUps` runs sign-ups one after another.
- `AuthProperties` (`auth_properties.dfy`) proves what the handlers promise:
  the order of the checks, the shared error for an unknown email and a wrong
  password, the exact claims of a token, the append-one-row effect, and
  email uniqueness under any sequence of sign-ups.

Some collaborators cannot be seen in this model: the presence check of
`value_checker`, bcrypt's `hashSync` and `compareSync`, and the private key
read from `ssl/server.key`. They are fields of a `Collaborators` value that
is passed in. Other inputs are parameters of each call: the salt
`genSaltSync(10)` would draw, the two `new Date()` readings, and whether a
store round-trip fails. A token is kept as the inputs of `jwt.sign`: the
claims, the key, `"12h"` and `"RS256"`.

The model follows the code in three points:
- an account counts as activated only when `is_active` equals 1, so a value
  of 2 is refused;
- sign-in reads `rows[0]` of the query, the first row in table order;
- on a lookup error sign-in throws instead of reporting (see Findings).

## Model

| member | source | states |
|---|---|---|
| `IdentityFormat.FormatsAreDisjoint` | controllers/auth.js:106-108 | strings matched by `regExp1` hold no '@'; strings matched by `regExp2` hold one; no string matches both |
| `IdentityFormat.DotAtomIsShape` | controllers/auth.js:107 | `[^…]+(\.[^…]+)*` matches exactly the nonempty strings of atom characters and dots with no dot at either end and no two dots in a row |
| `IdentityFormat.DottedLabelsIsShape` | controllers/auth.js:107 | `([a-zA-Z\-0-9]+\.)+` matches exactly the strings of label characters and dots that start with a label character, end with a dot and have no two dots in a row |
| `IdentityFormat.SingleAtSplit` | controllers/auth.js:107 | when neither side holds an '@', `regExp2` matches `local@domain` exactly when `local` is a local part and `domain` is a domain |
| `IdentityFormat.JoinedAccepted` | controllers/auth.js:107-108 | any local part and any domain joined by '@' pass the format check |
| `IdentityFormat.DotAtomJoin` | controllers/auth.js:107 | a run of atom characters, a dot and a dotted local part form a dotted local part |
| `IdentityFormat.DottedLabelsJoin` | controllers/auth.js:107 | a label, a dot and nothing or further dotted labels form dotted labels |
| `IdentityFormat.HostNameJoin` | controllers/auth.js:107 | dotted labels followed by a top-level label of two or more letters form a domain |
| `IdentityFormat.AlnumRun` | controllers/auth.js:107 | a nonempty string of ASCII letters and digits is both an atom run and a label |
| `IdentityFormat.DottedDigitGroupsCons` | controllers/auth.js:107 | one digit group, a dot and n-1 dotted groups make n dotted groups |
| `IdentityFormat.AddressLiteralOf` | controllers/auth.js:107 | four groups of one to three digits, dotted and bracketed, form the address-literal domain |
| `IdentityFormat.PlainIdAccepted` | controllers/auth.js:106-108 | `"abc123"` passes the check through `regExp1` |
| `IdentityFormat.ShortEmailAccepted` | controllers/auth.js:107-108 | `"a@b.co"` passes the check through `regExp2` |
| `IdentityFormat.DottedEmailAccepted` | controllers/auth.js:107-108 | `"john.doe@mail.example.com"` passes: dotted local part, two labels and a TLD |
| `IdentityFormat.QuotedEmailAccepted` | controllers/auth.js:107-108 | `"\"john doe\"@example.com"` passes through the quoted local part |
| `IdentityFormat.AddressLiteralEmailAccepted` | controllers/auth.js:107-108 | `"user@[192.168.0.1]"` passes through the bracketed address |
| `IdentityFormat.SpaceRejected` | controllers/auth.js:106-111 | `"bad email!"` matches neither expression |
| `IdentityFormat.DoubleDotRejected` | controllers/auth.js:107-108 | `"a..b@c.com"` is refused: two dots in a row in the local part |
| `IdentityFormat.ShortTopLevelRejected` | controllers/auth.js:107-108 | `"a@bb.c"` is refused: the last label must have at least two letters |
| `IdentityFormat.EmptyLocalRejected` | controllers/auth.js:107-108 | `"@b.co"` is refused: the local part cannot be empty |
| `IdentityFormat.MissingDotRejected` | controllers/auth.js:107-108 | `"a@b"` is refused: a host name needs at least one dotted label |
| `Users.Select` | controllers/auth.js:39-41 | the lookup returns at most as many rows as the table holds, and exactly the stored rows with that email |
| `Users.FirstWithEmail` | controllers/auth.js:46 | the first row with the email: absent exactly when no row has it, otherwise a stored row with that email and no earlier row has that email |
| `Users.FirstWithEmailAppended` | controllers/auth.js:39-46 | a row appended under an email no stored row holds is the first row with that email, whatever else the table holds |
| `Users.SelectHead` | controllers/auth.js:46-55 | the lookup result is empty exactly when no row matches, and `rows[0]` is the earliest matching row |
| `Users.SelectUnique` | controllers/auth.js:117-131 | with unique emails, looking up a stored row's email returns that row alone |
| `Users.Inserted` | controllers/auth.js:136-145 | the insert keeps the earlier rows as a prefix, adds one row, and keeps the `is_active` default |
| `Users.InsertedKeepsIds` | controllers/auth.js:136-145 | the insert keeps ids increasing and below the next id |
| `Users.InsertedKeepsEmailsUnique` | controllers/auth.js:136-145 | inserting an email not yet stored keeps emails pairwise distinct |
| `Users.UsersTable.Insert` | controllers/auth.js:136-152 | appends one row under the next id with the given name, email, hash and timestamps, and changes nothing else |
| `Auth.SignIn` | controllers/auth.js:22-73 | a token is issued only for a stored, active row with the given email whose hash verifies the password, and it carries that row's claims |
| `Auth.SignInAsWritten` | controllers/auth.js:61-75 | without a store error, the handler as written agrees with `SignIn` |
| `Auth.SignUpResult` | controllers/auth.js:91-157 | sign-up succeeds only for an email no row holds |
| `Auth.SignUpStep` | controllers/auth.js:135-153 | a sign-up keeps the earlier rows as a prefix and adds at most one row |
| `Auth.SignUps` | controllers/auth.js:91-157 | sign-ups run one after another never remove or change earlier rows, and add at most one row per call |
| `Auth.SignUp` | controllers/auth.js:91-157 | the outcome is `SignUpResult` of the old table; on success exactly the new row is appended, otherwise the table is unchanged; the ids stay valid and unique emails stay unique |
| `AuthProperties.SignInEmptyInput` | controllers/auth.js:29-33 | 400 "Required value is empty!" exactly when email or password is empty, and then the outcome does not depend on the table or the store |
| `AuthProperties.SignInLookupFailure` | controllers/auth.js:42-43 | with the inputs present, a failed lookup is a store error |
| `AuthProperties.SignInWrongIdOrPassword` | controllers/auth.js:46-48 | 400 "Wrong ID or password!" exactly when no row has the email, or the password does not verify against the first such row |
| `AuthProperties.UnknownEmailLooksLikeWrongPassword` | controllers/auth.js:46-48 | an unknown email and a wrong password for a known email give the identical outcome |
| `AuthProperties.SignInInactive` | controllers/auth.js:50-52 | 401 "This account is not activated yet!" exactly when the password verifies against the first row and its `is_active` is not 1 |
| `AuthProperties.SignInSuccess` | controllers/auth.js:54-73 | success exactly when every check passes on the first row; the token is `{uid, name, email, ip_address, user_agent}` of that row and request, with "12h", "RS256" and the private key |
| `AuthProperties.SignInWithUniqueEmails` | controllers/auth.js:39-73 | with unique emails, the outcome for a stored email is decided by that row's hash and `is_active` alone |
| `AuthProperties.SignInStoreErrorThrows` | controllers/auth.js:61-75 | on a lookup error the handler as written throws, while the corrected one reports a store error |
| `AuthProperties.SignUpEmptyInput` | controllers/auth.js:99-103 | 400 "Required value is empty!" exactly when name, email or password is empty |
| `AuthProperties.SignUpBadFormat` | controllers/auth.js:105-111 | with the inputs present, 400 "ID must be combination of alphabet and number, or email form!" exactly when the email matches neither expression, and then the outcome does not depend on the table or the store |
| `AuthProperties.SignUpDuplicate` | controllers/auth.js:117-131 | after the format check and a working lookup, 400 "ID already exists!" exactly when some row has the email |
| `AuthProperties.SignUpSuccess` | controllers/auth.js:99-153 | sign-up succeeds exactly when the inputs are present, the format passes, neither round-trip fails and no row has the email |
| `AuthProperties.SignUpStepEffect` | controllers/auth.js:135-153 | a successful sign-up appends exactly one row (next id, given name and email, `hash(password, salt)`, the `is_active` default, the timestamps); any other leaves the table unchanged |
| `AuthProperties.SignUpStepKeepsInvariant` | controllers/auth.js:117-153 | one sign-up keeps emails pairwise distinct and ids valid |
| `AuthProperties.SignUpsKeepInvariant` | controllers/auth.js:114-157 | any sequence of sign-ups, run one after another, keeps emails pairwise distinct |
| `AuthProperties.SecondSignUpRejected` | controllers/auth.js:117-131 | after a successful sign-up, a second one with the same email is refused as a duplicate and leaves the table unchanged |
| `AuthProperties.NewRowIsFirst` | controllers/auth.js:117-145 | after a successful sign-up, the first row with its email is the new row: next id, given name and email, the password's hash, the `is_active` default |
| `AuthProperties.SignInOwnPassword` | controllers/auth.js:46-73 | when the first row's hash verifies the password, sign-in gives that row's token if `is_active` is 1 and 401 otherwise |
| `AuthProperties.SignInOtherPassword` | controllers/auth.js:46-48 | when the first row's hash does not verify the password, sign-in gives 400 "Wrong ID or password!" |
| `AuthProperties.SignUpThenSignIn` | controllers/auth.js:91-157 | on any table, given bcrypt's round trip as a hypothesis, signing in after signing up gives the new row's token when its `is_active` default is 1, and 401 otherwise; under the idealisation that a hash verifies no other password, another password gets 400 |

## Left out

- bcrypt (`genSaltSync`, `hashSync`, `compareSync`) is a foreign library. Its hash and compare are uninterpreted functions in `Collaborators`. Its round trip is a hypothesis (`HashRoundTrip`), not a fact derived here. Constant-time comparison cannot be stated in this model.
- AuthProperties.SignUpThenSignIn: its second ensures rests on `HashBindsPassword`, an idealisation that bcrypt does not meet. bcrypt reads only the first 72 bytes of a password, so two passwords that agree in those bytes both verify against either hash. For such a pair, signing in with the other password succeeds in the program, and the lemma does not cover that case.
- `jsonwebtoken` and RS256 signing are foreign calls. A token is the record of what `jwt.sign` receives. Expiry is kept as the string "12h", with no clock.
- Reading `ssl/server.key` is file I/O at start-up. The key is a value in `Collaborators`.
- The daily-rotating login log (`loginLogStream`, the log text, `jwt_checker`) is best-effort file output written after the response. It is not modelled.
- The database connection is a network client. It is replaced by the in-memory table, and a failed round-trip is a boolean parameter. A failed insert is taken to add no row.
- SQL guarantees no row order without `ORDER BY`. The model takes table order.
- MySQL compares emails under the column's collation, often ignoring case and trailing spaces. The model compares strings exactly, so its uniqueness is uniqueness of exact strings.
- The Express plumbing is transport: `req`/`res`/`next`, `async.series`, the status that `error_handler.async_final` gives a store error, and the response bodies. `value_checker.is_empty_check` and `error_handler` are not part of this model. "Empty" is the injected predicate `isEmpty`, applied to each value of the checklist.
- Request fields are strings. An absent body field (`undefined`) is the caller's choice of string. `req.headers['user-agent']` is an `Option`.
- JavaScript's loose `!=` on `is_active` is modelled as comparison of integers.
- `new Date()` depends on the wall clock. The two readings are separate parameters, and nothing relates them.
- The uniqueness check and the insert race between concurrent sign-ups (check, then act). This is concurrency. Uniqueness is claimed only for sign-ups run one after another (`SignUpsKeepInvariant`).
- The regular expressions run over UTF-16 code units. The model runs them over Dafny characters, which are Unicode scalar values. No verdict changes: every bounded repetition in both expressions is over ASCII, and both the atom class and `.` accept a surrogate pair exactly when they accept the character it encodes. What is lost is JavaScript strings holding an unpaired surrogate, which a Dafny string cannot represent.
- The store's default for `is_active` on a new row is not visible in the source. It is the `activeDefault` constant of the table.

## Findings

| source | as written | input that shows it | evidently intended | confidence | as-written member | corrected member |
|---|---|---|---|---|---|---|
| controllers/auth.js:61-75 | on a lookup error the final callback evaluates `results[0].id` before it hands `err` to `async_final`; `results[0]` is undefined then, so the handler throws a TypeError instead of reporting | any sign-in with a present email and password whose SELECT fails | report the store error through `async_final(err, …)` | high, not executed | `Auth.SignInAsWritten` (shown by `AuthProperties.SignInStoreErrorThrows`) | `Auth.SignIn` |
