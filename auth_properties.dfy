/**
 * What the two handlers promise: the order of the sign-in checks and the
 * outcome each one yields, the shared error for an unknown email and a wrong
 * password, the exact claims of a token, the order of the sign-up checks, the
 * append-one-row effect of a successful sign-up, and uniqueness of emails
 * under any sequence of sign-ups.
 */
module AuthProperties {
  import opened Users
  import opened IdentityFormat
  import opened Auth

  // ---------------------------------------------------------------------------
  // Sign-in
  // ---------------------------------------------------------------------------

  /** An empty email or password is refused first, whatever the table holds and whether the store is up. */
  lemma SignInEmptyInput(env: Collaborators, req: SignInRequest, rows: seq<User>, lookupFails: bool)
    ensures SignIn(env, req, rows, lookupFails) == Err(400, MsgRequired)
        <==> AnyEmpty(env.isEmpty, [req.email, req.password])
    ensures AnyEmpty(env.isEmpty, [req.email, req.password]) ==>
        SignIn(env, req, rows, lookupFails) == SignIn(env, req, [], false)
  {
  }

  /** Once the inputs are present, a failed lookup is reported as a store error. */
  lemma SignInLookupFailure(env: Collaborators, req: SignInRequest, rows: seq<User>)
    requires !AnyEmpty(env.isEmpty, [req.email, req.password])
    ensures SignIn(env, req, rows, true) == StoreErr
  {
  }

  /**
   * "Wrong ID or password!" comes exactly from an email with no row, or from
   * a password that does not verify against the first row with that email.
   */
  lemma {:induction false} SignInWrongIdOrPassword(env: Collaborators, req: SignInRequest, rows: seq<User>)
    requires !AnyEmpty(env.isEmpty, [req.email, req.password])
    ensures SignIn(env, req, rows, false) == Err(400, MsgWrongCredentials)
        <==> match FirstWithEmail(rows, req.email)
             case None => true
             case Some(u) => !env.verify(req.password, u.password)
  {
    SelectHead(rows, req.email);
  }

  /** An unknown email and a wrong password for a known one cannot be told apart by the outcome. */
  lemma {:induction false} UnknownEmailLooksLikeWrongPassword(env: Collaborators, unknown: SignInRequest,
                                                             known: SignInRequest, rows: seq<User>)
    requires !AnyEmpty(env.isEmpty, [unknown.email, unknown.password])
    requires !AnyEmpty(env.isEmpty, [known.email, known.password])
    requires forall u :: u in rows ==> u.email != unknown.email
    requires FirstWithEmail(rows, known.email).Some?
    requires !env.verify(known.password, FirstWithEmail(rows, known.email).value.password)
    ensures SignIn(env, unknown, rows, false) == SignIn(env, known, rows, false) == Err(400, MsgWrongCredentials)
  {
    SignInWrongIdOrPassword(env, unknown, rows);
    SignInWrongIdOrPassword(env, known, rows);
  }

  /** A verified password on an account whose `is_active` is not 1 is refused with 401, and no token is built. */
  lemma {:induction false} SignInInactive(env: Collaborators, req: SignInRequest, rows: seq<User>, lookupFails: bool)
    ensures SignIn(env, req, rows, lookupFails) == Err(401, MsgNotActivated)
        <==> && !AnyEmpty(env.isEmpty, [req.email, req.password])
             && !lookupFails
             && FirstWithEmail(rows, req.email).Some?
             && env.verify(req.password, FirstWithEmail(rows, req.email).value.password)
             && FirstWithEmail(rows, req.email).value.isActive != 1
  {
    SelectHead(rows, req.email);
  }

  /**
   * Success exactly when all checks pass on the first row with the email; the
   * token then carries that row's id, name and email with the request's IP
   * and user agent, expires in 12h and is signed RS256 with the private key.
   */
  lemma {:induction false} SignInSuccess(env: Collaborators, req: SignInRequest, rows: seq<User>, lookupFails: bool)
    ensures SignIn(env, req, rows, lookupFails).Ok?
        <==> && !AnyEmpty(env.isEmpty, [req.email, req.password])
             && !lookupFails
             && FirstWithEmail(rows, req.email).Some?
             && env.verify(req.password, FirstWithEmail(rows, req.email).value.password)
             && FirstWithEmail(rows, req.email).value.isActive == 1
    ensures SignIn(env, req, rows, lookupFails).Ok? ==>
        var u := FirstWithEmail(rows, req.email).value;
        SignIn(env, req, rows, lookupFails).value
          == Token(Claims(u.id, u.name, u.email, req.ip, req.userAgent), env.privateKey, "12h", "RS256")
  {
    SelectHead(rows, req.email);
  }

  /** With unique emails the "first row" is the only row: the outcome is decided by that account alone. */
  lemma {:induction false} SignInWithUniqueEmails(env: Collaborators, req: SignInRequest, rows: seq<User>, u: User)
    requires EmailsUnique(rows) && u in rows && u.email == req.email
    requires !AnyEmpty(env.isEmpty, [req.email, req.password])
    ensures SignIn(env, req, rows, false)
         == if !env.verify(req.password, u.password) then Err(400, MsgWrongCredentials)
            else if u.isActive != 1 then Err(401, MsgNotActivated)
            else Ok(Sign(ClaimsFor(u, req), env.privateKey))
  {
    SelectUnique(rows, u);
  }

  /** On a store error the handler as written throws where the corrected one reports a store error. */
  lemma SignInStoreErrorThrows(env: Collaborators, req: SignInRequest, rows: seq<User>)
    requires !AnyEmpty(env.isEmpty, [req.email, req.password])
    ensures SignInAsWritten(env, req, rows, true) == None
    ensures SignIn(env, req, rows, true) == StoreErr
  {
  }

  // ---------------------------------------------------------------------------
  // Sign-up
  // ---------------------------------------------------------------------------

  /** An empty name, email or password is refused first; the table is not looked at and not changed. */
  lemma SignUpEmptyInput(env: Collaborators, req: SignUpRequest, rows: seq<User>, faults: StoreFaults)
    ensures SignUpResult(env, req, rows, faults) == Err(400, MsgRequired)
        <==> AnyEmpty(env.isEmpty, [req.name, req.email, req.password])
  {
  }

  /** A present email that matches neither pattern is refused next, before any store access. */
  lemma SignUpBadFormat(env: Collaborators, req: SignUpRequest, rows: seq<User>, faults: StoreFaults)
    requires !AnyEmpty(env.isEmpty, [req.name, req.email, req.password])
    ensures SignUpResult(env, req, rows, faults) == Err(400, MsgBadIdentity) <==> !IsValidIdentity(req.email)
    ensures !IsValidIdentity(req.email) ==>
        SignUpResult(env, req, rows, faults) == SignUpResult(env, req, [], StoreFaults(false, false))
  {
  }

  /** After the format check, a stored email is refused with "ID already exists!", and only then. */
  lemma {:induction false} SignUpDuplicate(env: Collaborators, req: SignUpRequest, rows: seq<User>, faults: StoreFaults)
    requires !AnyEmpty(env.isEmpty, [req.name, req.email, req.password])
    requires IsValidIdentity(req.email) && !faults.lookup
    ensures SignUpResult(env, req, rows, faults) == Err(400, MsgDuplicate)
        <==> exists u :: u in rows && u.email == req.email
  {
    SelectHead(rows, req.email);
  }

  /** Sign-up succeeds exactly when every check passes, neither round-trip fails, and the email is new. */
  lemma {:induction false} SignUpSuccess(env: Collaborators, req: SignUpRequest, rows: seq<User>, faults: StoreFaults)
    ensures SignUpResult(env, req, rows, faults).Ok?
        <==> && !AnyEmpty(env.isEmpty, [req.name, req.email, req.password])
             && IsValidIdentity(req.email)
             && !faults.lookup && !faults.insert
             && forall u :: u in rows ==> u.email != req.email
  {
    SelectHead(rows, req.email);
  }

  /**
   * A successful call appends exactly one row holding the given name and
   * email and the hash of the given password; any other call leaves the
   * table as it was.
   */
  lemma SignUpStepEffect(env: Collaborators, st: TableState, call: SignUpCall)
    ensures var st' := SignUpStep(env, st, call);
      if SignUpResult(env, call.req, st.rows, call.faults).Ok? then
        && |st'.rows| == |st.rows| + 1
        && st'.rows[..|st.rows|] == st.rows
        && st'.rows[|st.rows|] == User(st.nextId, call.req.name, call.req.email,
                                       env.hash(call.req.password, call.salt), st.activeDefault,
                                       call.createdAt, call.updatedAt)
        && st'.nextId == st.nextId + 1
      else st' == st
  {
  }

  /** The store's invariant: emails pairwise distinct, ids increasing and below the next id. */
  predicate TableInvariant(st: TableState)
  {
    EmailsUnique(st.rows) && IdsBelow(st.rows, st.nextId)
  }

  /** One sign-up keeps the invariant. */
  lemma {:induction false} SignUpStepKeepsInvariant(env: Collaborators, st: TableState, call: SignUpCall)
    requires TableInvariant(st)
    ensures TableInvariant(SignUpStep(env, st, call))
  {
    if SignUpResult(env, call.req, st.rows, call.faults).Ok? {
      var hash := env.hash(call.req.password, call.salt);
      InsertedKeepsEmailsUnique(st, call.req.name, call.req.email, hash, call.createdAt, call.updatedAt);
      InsertedKeepsIds(st, call.req.name, call.req.email, hash, call.createdAt, call.updatedAt);
    }
  }

  /** Any sequence of sign-ups, one after another, keeps emails unique. */
  lemma {:induction false} SignUpsKeepInvariant(env: Collaborators, st: TableState, calls: seq<SignUpCall>)
    requires TableInvariant(st)
    ensures TableInvariant(SignUps(env, st, calls))
    ensures EmailsUnique(SignUps(env, st, calls).rows)
    decreases |calls|
  {
    if calls != [] {
      SignUpStepKeepsInvariant(env, st, calls[0]);
      SignUpsKeepInvariant(env, SignUpStep(env, st, calls[0]), calls[1..]);
    }
  }

  /** After a successful sign-up, a second one with the same email is refused as a duplicate and changes nothing. */
  lemma {:induction false} SecondSignUpRejected(env: Collaborators, st: TableState, first: SignUpCall, second: SignUpCall)
    requires SignUpResult(env, first.req, st.rows, first.faults).Ok?
    requires second.req.email == first.req.email
    requires !AnyEmpty(env.isEmpty, [second.req.name, second.req.email, second.req.password])
    requires !second.faults.lookup
    ensures var st' := SignUpStep(env, st, first);
      && SignUpResult(env, second.req, st'.rows, second.faults) == Err(400, MsgDuplicate)
      && SignUpStep(env, st', second) == st'
  {
    var st' := SignUpStep(env, st, first);
    SignUpSuccess(env, first.req, st.rows, first.faults);
    assert st'.rows[|st.rows|] in st'.rows;
    SignUpDuplicate(env, second.req, st'.rows, second.faults);
  }

  /** bcrypt's round trip, a hypothesis about the library: a password verifies against its own hash. */
  ghost predicate HashRoundTrip(env: Collaborators)
  {
    forall p, s :: env.verify(p, env.hash(p, s))
  }

  /**
   * An idealised binding of hash to password: a hash verifies no other
   * password. bcrypt itself does not give this, since it reads only the first
   * 72 bytes of a password, so two passwords that agree there verify against
   * each other's hash.
   */
  ghost predicate HashBindsPassword(env: Collaborators)
  {
    forall p, q, s :: env.verify(q, env.hash(p, s)) ==> q == p
  }

  /**
   * Registering and then signing in with the same email and password: the
   * token is for the new row when its `is_active` default is 1, otherwise
   * the account is reported as not activated; another password is refused.
   */
  lemma {:induction false} SignUpThenSignIn(env: Collaborators, st: TableState, call: SignUpCall,
                                            ip: string, userAgent: Option<string>, other: string)
    requires SignUpResult(env, call.req, st.rows, call.faults).Ok?
    requires HashRoundTrip(env)
    requires !env.isEmpty(other)
    ensures var st' := SignUpStep(env, st, call);
      var req := SignInRequest(call.req.email, call.req.password, ip, userAgent);
      SignIn(env, req, st'.rows, false)
        == if st.activeDefault == 1
           then Ok(Token(Claims(st.nextId, call.req.name, call.req.email, ip, userAgent), env.privateKey, ExpiresIn, Algorithm))
           else Err(401, MsgNotActivated)
    ensures HashBindsPassword(env) && other != call.req.password ==>
      var st' := SignUpStep(env, st, call);
      SignIn(env, SignInRequest(call.req.email, other, ip, userAgent), st'.rows, false) == Err(400, MsgWrongCredentials)
  {
    var rows := SignUpStep(env, st, call).rows;
    var u := User(st.nextId, call.req.name, call.req.email, env.hash(call.req.password, call.salt),
                  st.activeDefault, call.createdAt, call.updatedAt);
    NewRowIsFirst(env, st, call);
    SignUpInputsPresent(env, call);
    SignInOwnPassword(env, rows, u, SignInRequest(call.req.email, call.req.password, ip, userAgent));
    if HashBindsPassword(env) && other != call.req.password {
      SignInOtherPassword(env, rows, u, SignInRequest(call.req.email, other, ip, userAgent));
    }
  }

  /** Signing in with the password whose hash the first row with that email holds. */
  lemma {:induction false} SignInOwnPassword(env: Collaborators, rows: seq<User>, u: User, req: SignInRequest)
    requires !env.isEmpty(req.email) && !env.isEmpty(req.password)
    requires FirstWithEmail(rows, req.email) == Some(u)
    requires env.verify(req.password, u.password)
    ensures SignIn(env, req, rows, false)
         == if u.isActive == 1
            then Ok(Token(Claims(u.id, u.name, u.email, req.ip, req.userAgent), env.privateKey, ExpiresIn, Algorithm))
            else Err(401, MsgNotActivated)
  {
    assert !AnyEmpty(env.isEmpty, [req.email, req.password]);
    SignInSuccess(env, req, rows, false);
    SignInInactive(env, req, rows, false);
  }

  /** Signing in with a password the first row's hash does not verify. */
  lemma {:induction false} SignInOtherPassword(env: Collaborators, rows: seq<User>, u: User, req: SignInRequest)
    requires !env.isEmpty(req.email) && !env.isEmpty(req.password)
    requires FirstWithEmail(rows, req.email) == Some(u)
    requires !env.verify(req.password, u.password)
    ensures SignIn(env, req, rows, false) == Err(400, MsgWrongCredentials)
  {
    assert !AnyEmpty(env.isEmpty, [req.email, req.password]);
    SignInWrongIdOrPassword(env, req, rows);
  }

  /** After a successful sign-up the new row is the first row with its email. */
  lemma {:induction false} NewRowIsFirst(env: Collaborators, st: TableState, call: SignUpCall)
    requires SignUpResult(env, call.req, st.rows, call.faults).Ok?
    ensures FirstWithEmail(SignUpStep(env, st, call).rows, call.req.email)
         == Some(User(st.nextId, call.req.name, call.req.email, env.hash(call.req.password, call.salt),
                      st.activeDefault, call.createdAt, call.updatedAt))
  {
    var st' := SignUpStep(env, st, call);
    SignUpSuccess(env, call.req, st.rows, call.faults);
    var u := st'.rows[|st.rows|];
    assert st'.rows == st.rows + [u];
    FirstWithEmailAppended(st.rows, u);
  }

  /** A successful sign-up had a present email and password. */
  lemma {:induction false} SignUpInputsPresent(env: Collaborators, call: SignUpCall)
    requires !AnyEmpty(env.isEmpty, [call.req.name, call.req.email, call.req.password])
    ensures !env.isEmpty(call.req.email) && !env.isEmpty(call.req.password)
  {
    var fields := [call.req.name, call.req.email, call.req.password];
    assert fields[1] == call.req.email && fields[2] == call.req.password;
  }
}
