/** What `Login` and `VerifyToken` promise across calls and collaborators:
    the fixed order of the checks, which error each failing check produces,
    the claims a successful login signs, the key both sides use, and how a
    bearer-prefixed token relates to the bare one. */
module AuthProperties {
  import opened AuthTypes
  import opened AuthService

  /** The collaborator calls of a login that passes every check, in order.
      Every run of `Login` makes a prefix of these calls for some user record and claims. */
  function LoginPipeline(req: LoginRequest, user: UserInfo, claims: Claims, key: GoString): seq<Call>
  {
    [Validate(req), FindUserByEmail(req.email), CompareHashAndPassword(user.password, req.password), SignHS256(claims, key)]
  }

  /** The checks run in a fixed order and each runs only after all earlier ones
      passed: the hash compared is the looked-up user's, the claims signed are
      the ones issued for that user, and every run makes a prefix of the pipeline. */
  lemma LoginFollowsPipeline(libs: Libraries, s: Service, now: int, req: LoginRequest)
    ensures exists user: UserInfo, claims: Claims ::
              Login(libs, s, now, req).calls <= LoginPipeline(req, user, claims, s.conf.key)
    ensures var calls := Login(libs, s, now, req).calls;
            var found := s.findUserByEmail(req.email);
            && (found.Ok? ==>
                  calls <= LoginPipeline(req, found.value, IssueClaims(req, found.value, now), s.conf.key))
            && (found.Err? ==> calls <= [Validate(req), FindUserByEmail(req.email)])
            && (|calls| > 1 ==> libs.validate(req).None?)
            && (|calls| > 2 ==> found.Ok? && !found.value.locked)
            && (|calls| > 3 ==> libs.compareHashAndPassword(found.value.password, req.password).None?)
  {
    var r := Login(libs, s, now, req);
    var found := s.findUserByEmail(req.email);
    var user := if found.Ok? then found.value else UserInfo("", "", "", "", false);
    var claims := IssueClaims(req, user, now);
    assert r.calls <= LoginPipeline(req, user, claims, s.conf.key);
  }

  /** A request that fails struct validation yields the validator's error and an
      empty token, and the user store is never consulted. */
  lemma ValidationFailureStopsLogin(libs: Libraries, s: Service, now: int, req: LoginRequest)
    requires libs.validate(req).Some?
    ensures var r := Login(libs, s, now, req);
            r.token == "" && r.err == Some(Foreign(libs.validate(req).value)) &&
            r.calls == [Validate(req)]
  {
  }

  /** An error from the user store comes back unchanged with an empty token;
      neither the password comparison nor signing happens. */
  lemma LookupErrorPropagates(libs: Libraries, s: Service, now: int, req: LoginRequest)
    requires libs.validate(req).None?
    requires s.findUserByEmail(req.email).Err?
    ensures var r := Login(libs, s, now, req);
            r.token == "" && r.err == Some(Foreign(s.findUserByEmail(req.email).error)) &&
            r.calls == [Validate(req), FindUserByEmail(req.email)]
  {
  }

  /** A locked account is rejected with `ErrUserIsLocked` whatever password is
      supplied, and the password is never compared. */
  lemma LockedRejectedWhateverPassword(libs: Libraries, s: Service, now: int, email: GoString, password: GoString)
    requires libs.validate(LoginRequest(email, password)).None?
    requires s.findUserByEmail(email).Ok? && s.findUserByEmail(email).value.locked
    ensures var r := Login(libs, s, now, LoginRequest(email, password));
            r.token == "" && r.err == Some(ErrUserIsLocked) &&
            forall c :: c in r.calls ==> !c.CompareHashAndPassword? && !c.SignHS256?
  {
  }

  /** For an unlocked user whose stored hash does not match the password, the
      comparison error comes back with an empty token and nothing is signed. */
  lemma PasswordMismatchPropagates(libs: Libraries, s: Service, now: int, req: LoginRequest)
    requires libs.validate(req).None?
    requires s.findUserByEmail(req.email).Ok? && !s.findUserByEmail(req.email).value.locked
    requires libs.compareHashAndPassword(s.findUserByEmail(req.email).value.password, req.password).Some?
    ensures var r := Login(libs, s, now, req);
            var user := s.findUserByEmail(req.email).value;
            r.token == "" &&
            r.err == Some(Foreign(libs.compareHashAndPassword(user.password, req.password).value)) &&
            forall c :: c in r.calls ==> !c.SignHS256?
  {
  }

  /** Login succeeds exactly when every check passes and signing reports no error;
      the claims it signs carry the request's email, the stored id and role, and
      expire 500 minutes after `now`, and the token is the signer's. */
  lemma LoginSucceedsIff(libs: Libraries, s: Service, now: int, req: LoginRequest)
    ensures var r := Login(libs, s, now, req);
            var found := s.findUserByEmail(req.email);
            r.err.None? <==>
              && libs.validate(req).None?
              && found.Ok? && !found.value.locked
              && libs.compareHashAndPassword(found.value.password, req.password).None?
              && libs.signHS256(Claims(req.email, found.value.id, found.value.role, now + 30000), s.conf.key).err.None?
    ensures var r := Login(libs, s, now, req);
            r.err.None? ==>
              var user := s.findUserByEmail(req.email).value;
              var claims := Claims(req.email, user.id, user.role, now + 30000);
              r.calls[3] == SignHS256(claims, s.conf.key) &&
              r.token == libs.signHS256(claims, s.conf.key).tokenString
  {
  }

  /** A signing failure after every check has passed comes back unchanged, with an
      empty token even when the signer also returned a string. */
  lemma SigningErrorPropagates(libs: Libraries, s: Service, now: int, req: LoginRequest)
    requires libs.validate(req).None?
    requires s.findUserByEmail(req.email).Ok? && !s.findUserByEmail(req.email).value.locked
    requires libs.compareHashAndPassword(s.findUserByEmail(req.email).value.password, req.password).None?
    requires libs.signHS256(IssueClaims(req, s.findUserByEmail(req.email).value, now), s.conf.key).err.Some?
    ensures var r := Login(libs, s, now, req);
            var signed := libs.signHS256(IssueClaims(req, s.findUserByEmail(req.email).value, now), s.conf.key);
            r.token == "" && r.err == Some(Foreign(signed.err.value)) && |r.calls| == 4
  {
  }

  /** A service made by `NewService` signs with the same key `VerifyToken` parses with. */
  lemma SameKeyForSigningAndParsing(libs: Libraries, store: GoString -> Result<UserInfo>, now: int,
                                    req: LoginRequest, token: GoString)
    ensures forall c :: c in Login(libs, NewService(store), now, req).calls && c.SignHS256? ==>
              exists p :: p in VerifyToken(libs, token).calls && p.ParseWithClaims? && p.key == c.key
  {
  }

  /** Removing the prefix undoes adding it. */
  lemma StripBearerAfterPrefix(t: GoString)
    ensures StripBearer(BearerPrefix + t) == t
  {
  }

  /** A bearer-prefixed token verifies exactly as the bare token does, provided
      the bare token does not itself start with the prefix. */
  lemma PrefixedVerifiesAsBare(libs: Libraries, t: GoString)
    requires !HasBearerPrefix(t)
    ensures VerifyToken(libs, BearerPrefix + t) == VerifyToken(libs, t)
  {
  }

  /** The parser accepts every token the signer produced without error under the
      same key and gives back the signed claims. This is a property of the JWT
      library, not of this service; it is stated here as a hypothesis. */
  ghost predicate ParserInvertsSigner(libs: Libraries)
  {
    forall c: Claims, k: GoString {:trigger libs.signHS256(c, k)} ::
      libs.signHS256(c, k).err.None? ==>
        libs.parseWithClaims(libs.signHS256(c, k).tokenString, k) == Parsed(true, c, None)
  }

  /** Round trip: when the parser inverts the signer, the token of a successful
      login for a service made by `NewService`, sent as `"Bearer " + token`,
      verifies to the claims built from the request and the stored user. */
  lemma LoginThenVerify(libs: Libraries, store: GoString -> Result<UserInfo>, now: int, req: LoginRequest)
    requires ParserInvertsSigner(libs)
    requires Login(libs, NewService(store), now, req).err.None?
    ensures var user := store(req.email).value;
            var v := VerifyToken(libs, BearerPrefix + Login(libs, NewService(store), now, req).token);
            v.err.None? && v.claims == Some(Claims(req.email, user.id, user.role, now + 30000))
  {
  }

  /** Wherever the original `VerifyToken` does not panic, it returns what the
      bounds-checked `VerifyToken` returns. */
  lemma VerifyTokenAgreesWithAsWritten(libs: Libraries, token: GoString)
    requires |token| >= 7
    ensures VerifyTokenAsWritten(libs, token) == Some(VerifyToken(libs, token))
  {
  }

  /** The original `VerifyToken` panics on an empty `Authorization` value (a
      request that sends no header), while the bounds-checked one hands the
      empty string to the parser and maps its outcome. */
  lemma EmptyTokenPanicsAsWritten(libs: Libraries)
    ensures VerifyTokenAsWritten(libs, "") == None
    ensures VerifyToken(libs, "").calls == [ParseWithClaims("", ZeroConfig.key)]
  {
  }
}
