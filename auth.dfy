/**
 * The two handlers of the authentication controller: `signin` (check the
 * credentials against the first row with that email, then issue a signed
 * session token) and `signup` (validate, check uniqueness, insert a row with
 * a hashed password).
 *
 * What the controller calls out to and cannot be seen here is injected as a
 * `Collaborators` value: the presence check, bcrypt's hash and compare, and
 * the private signing key read once at start-up. The random salt, the clock
 * readings and whether a store round-trip fails are parameters of each call.
 */
module Auth {
  import opened Users
  import opened IdentityFormat

  /** The salt `bcrypt.genSaltSync(10)` draws. */
  type Salt = string

  /** The PEM bytes of the private signing key. */
  type Key = seq<bv8>

  const ExpiresIn := "12h"
  const Algorithm := "RS256"

  const MsgRequired := "Required value is empty!"
  const MsgWrongCredentials := "Wrong ID or password!"
  const MsgNotActivated := "This account is not activated yet!"
  const MsgBadIdentity := "ID must be combination of alphabet and number, or email form!"
  const MsgDuplicate := "ID already exists!"

  datatype Collaborators = Collaborators(
    isEmpty: string -> bool,              // value_checker's test for one value
    hash: (string, Salt) -> Hash,         // bcrypt.hashSync
    verify: (string, Hash) -> bool,       // bcrypt.compareSync
    privateKey: Key)                      // ssl/server.key

  /** What a handler reports: an error with a status, a store failure, or success. */
  datatype Outcome<T> = Err(status: int, message: string) | StoreErr | Ok(value: T)

  /** The JWT payload of a session. */
  datatype Claims = Claims(uid: nat, name: string, email: string, ipAddress: string, userAgent: Option<string>)

  /** The result of `jwt.sign(claims, key, {expiresIn, algorithm})`, kept as its inputs. */
  datatype Token = Token(claims: Claims, key: Key, expiresIn: string, algorithm: string)

  datatype SignInRequest = SignInRequest(email: string, password: string, ip: string, userAgent: Option<string>)

  datatype SignUpRequest = SignUpRequest(name: string, email: string, password: string)

  /** Which store round-trips of one request fail. */
  datatype StoreFaults = StoreFaults(lookup: bool, insert: bool)

  /** `value_checker.is_empty_check(checklist)`: some value of the list is empty. */
  predicate AnyEmpty(isEmpty: string -> bool, values: seq<string>)
  {
    exists i :: 0 <= i < |values| && isEmpty(values[i])
  }

  function ClaimsFor(u: User, req: SignInRequest): Claims
  {
    Claims(u.id, u.name, u.email, req.ip, req.userAgent)
  }

  function Sign(claims: Claims, key: Key): Token
  {
    Token(claims, key, ExpiresIn, Algorithm)
  }

  /**
   * `signin`: presence check, lookup by email, password check against the
   * first row returned (an unknown email gives the same error), activation
   * check, and the token for that row and this request.
   */
  function SignIn(env: Collaborators, req: SignInRequest, rows: seq<User>, lookupFails: bool): (r: Outcome<Token>)
    ensures r.Ok? ==> exists u :: (u in rows && u.email == req.email && u.isActive == 1 &&
                                    env.verify(req.password, u.password) &&
                                    r.value == Sign(ClaimsFor(u, req), env.privateKey))
  {
    if AnyEmpty(env.isEmpty, [req.email, req.password]) then Err(400, MsgRequired)
    else if lookupFails then StoreErr
    else
      var found := Select(rows, req.email);
      if |found| == 0 || !env.verify(req.password, found[0].password) then Err(400, MsgWrongCredentials)
      else if found[0].isActive != 1 then Err(401, MsgNotActivated)
      else Ok(Sign(ClaimsFor(found[0], req), env.privateKey))
  }

  /**
   * `signin` as written on a store error: the final callback builds the token
   * from `results[0].id` before it looks at `err`, and `results[0]` is then
   * undefined, so the handler throws instead of reporting. `None` is that throw.
   */
  function SignInAsWritten(env: Collaborators, req: SignInRequest, rows: seq<User>, lookupFails: bool): (r: Option<Outcome<Token>>)
    ensures !lookupFails ==> r == Some(SignIn(env, req, rows, false))
  {
    if AnyEmpty(env.isEmpty, [req.email, req.password]) then Some(Err(400, MsgRequired))
    else if lookupFails then None
    else Some(SignIn(env, req, rows, false))
  }

  /**
   * The outcome of `signup`: presence check, format check, duplicate check,
   * then the insert; the first failing step decides.
   */
  function SignUpResult(env: Collaborators, req: SignUpRequest, rows: seq<User>, faults: StoreFaults): (r: Outcome<()>)
    ensures r.Ok? ==> forall u :: u in rows ==> u.email != req.email
  {
    if AnyEmpty(env.isEmpty, [req.name, req.email, req.password]) then Err(400, MsgRequired)
    else if !IsValidIdentity(req.email) then Err(400, MsgBadIdentity)
    else if faults.lookup then StoreErr
    else if |Select(rows, req.email)| != 0 then Err(400, MsgDuplicate)
    else if faults.insert then StoreErr
    else Ok(())
  }

  /** One `signup` call with its salt, its two clock readings and its store faults. */
  datatype SignUpCall = SignUpCall(req: SignUpRequest, salt: Salt, createdAt: Timestamp, updatedAt: Timestamp, faults: StoreFaults)

  /** The table after one `signup` call: one more row on success, unchanged otherwise. */
  function SignUpStep(env: Collaborators, st: TableState, call: SignUpCall): (st': TableState)
    ensures |st.rows| <= |st'.rows| <= |st.rows| + 1 && st'.rows[..|st.rows|] == st.rows
  {
    if SignUpResult(env, call.req, st.rows, call.faults).Ok? then
      Inserted(st, call.req.name, call.req.email, env.hash(call.req.password, call.salt), call.createdAt, call.updatedAt)
    else st
  }

  /**
   * The table after a sequence of `signup` calls, one after another. Sign-ups
   * only ever add rows: the earlier rows stay a prefix, and no more rows are
   * added than there are calls.
   */
  function SignUps(env: Collaborators, st: TableState, calls: seq<SignUpCall>): (st': TableState)
    ensures |st.rows| <= |st'.rows| <= |st.rows| + |calls| && st'.rows[..|st.rows|] == st.rows
    decreases |calls|
  {
    if calls == [] then st
    else
      var mid := SignUpStep(env, st, calls[0]);
      var last := SignUps(env, mid, calls[1..]);
      assert last.rows[..|st.rows|] == last.rows[..|mid.rows|][..|st.rows|];
      last
  }

  /** `signup` against the table: each step returns early on failure; the insert is the only write. */
  method SignUp(env: Collaborators, users: UsersTable, req: SignUpRequest, salt: Salt,
                createdAt: Timestamp, updatedAt: Timestamp, faults: StoreFaults) returns (r: Outcome<()>)
    requires users.Valid()
    modifies users
    ensures users.Valid()
    ensures r == SignUpResult(env, req, old(users.rows), faults)
    ensures users.State() == SignUpStep(env, old(users.State()), SignUpCall(req, salt, createdAt, updatedAt, faults))
    ensures r.Ok? ==> (users.rows == old(users.rows) +
                       [User(old(users.nextId), req.name, req.email, env.hash(req.password, salt),
                             users.activeDefault, createdAt, updatedAt)])
    ensures !r.Ok? ==> users.rows == old(users.rows) && users.nextId == old(users.nextId)
    ensures EmailsUnique(old(users.rows)) ==> EmailsUnique(users.rows)
  {
    if AnyEmpty(env.isEmpty, [req.name, req.email, req.password]) {
      return Err(400, MsgRequired);
    }
    if !RegExp1(req.email) && !RegExp2(req.email) {
      return Err(400, MsgBadIdentity);
    }
    if faults.lookup {
      return StoreErr;
    }
    var found := Select(users.rows, req.email);
    if |found| != 0 {
      return Err(400, MsgDuplicate);
    }
    if faults.insert {
      return StoreErr;
    }
    if EmailsUnique(users.rows) {
      InsertedKeepsEmailsUnique(users.State(), req.name, req.email, env.hash(req.password, salt), createdAt, updatedAt);
    }
    users.Insert(req.name, req.email, env.hash(req.password, salt), createdAt, updatedAt);
    r := Ok(());
  }
}
