/** `auth.Service`: login (validate, look up, reject locked, compare the
    password, build and sign the claims) and bearer-token verification. */
module AuthService {
  import opened AuthTypes

  /** `500 * time.Minute`, in seconds. */
  const TokenLifetimeSeconds: int := 500 * 60

  /** The authorization scheme prefix that `VerifyToken` strips. */
  const BearerPrefix: GoString := "Bearer "

  /** `config{}`: the zero value, whose key is the empty string. */
  const ZeroConfig: Config := Config("")

  /** `NewService`: stores the user store and leaves `conf` at its zero value. */
  function NewService(userSvc: GoString -> Result<UserInfo>): Service
  {
    Service(ZeroConfig, userSvc)
  }

  /** The claims `Login` signs for `req` once `user` has passed every check at Unix time `now`. */
  function IssueClaims(req: LoginRequest, user: UserInfo, now: int): (c: Claims)
    ensures c.email == req.email && c.id == user.id && c.role == user.role
    ensures c.expiresAt - now == 30000
  {
    Claims(req.email, user.id, user.role, now + TokenLifetimeSeconds)
  }

  /** `Service.Login` at Unix time `now` (seconds). Every check either returns
      `("", err)` at once or hands over to the next one. */
  function Login(libs: Libraries, s: Service, now: int, req: LoginRequest): (r: LoginOutcome)
    ensures r.err.Some? ==> r.token == ""
    ensures 1 <= |r.calls| <= 4 && r.calls[0] == Validate(req)
    ensures r.err.None? <==>
              |r.calls| == 4 && r.calls[3].SignHS256? &&
              libs.signHS256(r.calls[3].claims, r.calls[3].key).err.None?
    ensures r.err.None? ==>
              r.calls[3].key == s.conf.key &&
              r.token == libs.signHS256(r.calls[3].claims, s.conf.key).tokenString
  {
    var afterValidate := [Validate(req)];
    match libs.validate(req)
    case Some(e) => LoginOutcome("", Some(Foreign(e)), afterValidate)
    case None =>
      var afterLookup := afterValidate + [FindUserByEmail(req.email)];
      match s.findUserByEmail(req.email)
      case Err(e) => LoginOutcome("", Some(Foreign(e)), afterLookup)
      case Ok(user) =>
        if user.locked then LoginOutcome("", Some(ErrUserIsLocked), afterLookup)
        else
          var afterCompare := afterLookup + [CompareHashAndPassword(user.password, req.password)];
          match libs.compareHashAndPassword(user.password, req.password)
          case Some(e) => LoginOutcome("", Some(Foreign(e)), afterCompare)
          case None =>
            var claims := IssueClaims(req, user, now);
            var afterSign := afterCompare + [SignHS256(claims, s.conf.key)];
            var signed := libs.signHS256(claims, s.conf.key);
            match signed.err
            case Some(e) => LoginOutcome("", Some(Foreign(e)), afterSign)
            case None => LoginOutcome(signed.tokenString, None, afterSign)
  }

  predicate HasBearerPrefix(token: GoString)
  {
    |token| >= |BearerPrefix| && token[..|BearerPrefix|] == BearerPrefix
  }

  /** The token `VerifyToken` hands to the parser: `token` without a leading
      `"Bearer "`, or all of `token` when it does not start with one. */
  function StripBearer(token: GoString): (t: GoString)
    ensures HasBearerPrefix(token) ==> BearerPrefix + t == token
    ensures !HasBearerPrefix(token) ==> t == token
  {
    if HasBearerPrefix(token) then token[|BearerPrefix|..] else token
  }

  /** Lines 73-78 of `VerifyToken` as written: `token[:7]` is evaluated before
      the comparison, so a token shorter than seven bytes makes the slice
      panic, which is `None` here. */
  function StripBearerAsWritten(token: GoString): (t: Option<GoString>)
    ensures t.None? <==> |token| < 7
    ensures t.Some? && t.value != token ==> token == "Bearer " + t.value
    ensures t.Some? ==> (t.value != token <==> token[..7] == "Bearer ")
    ensures |token| >= 7 ==> t == Some(StripBearer(token))
  {
    if |token| < 7 then None
    else if token[..7] == "Bearer " then Some(token[7..])
    else Some(token)
  }

  /** Lines 79-90 of `VerifyToken`: parse with the zero-value key and map the
      two ways of failing onto the two sentinel errors. */
  function ParseAndCheck(libs: Libraries, tokenValidType: GoString): (r: VerifyOutcome)
    ensures r.calls == [ParseWithClaims(tokenValidType, ZeroConfig.key)]
    ensures var p := libs.parseWithClaims(tokenValidType, ZeroConfig.key);
            && (p.err.Some? ==> r.err == Some(ErrCompareToken) && r.claims.None?)
            && (p.err.None? && !p.valid ==> r.err == Some(ErrTokenInvalid) && r.claims.None?)
            && (r.err.None? <==> p.err.None? && p.valid)
            && (r.claims.Some? <==> r.err.None?)
            && (r.claims.Some? ==> r.claims.value == p.claims)
  {
    var c := ZeroConfig;
    var parsed := libs.parseWithClaims(tokenValidType, c.key);
    var calls := [ParseWithClaims(tokenValidType, c.key)];
    if parsed.err.Some? then VerifyOutcome(None, Some(ErrCompareToken), calls)
    else if !parsed.valid then VerifyOutcome(None, Some(ErrTokenInvalid), calls)
    else VerifyOutcome(Some(parsed.claims), None, calls)
  }

  /** `VerifyToken` as written: `None` when the prefix slice panics. */
  function VerifyTokenAsWritten(libs: Libraries, token: GoString): (r: Option<VerifyOutcome>)
    ensures r.None? <==> |token| < 7
  {
    match StripBearerAsWritten(token)
    case None => None
    case Some(t) => Some(ParseAndCheck(libs, t))
  }

  /** `VerifyToken` with the prefix check bounded by the length of the token:
      defined on every input, and the same as written wherever that does not panic. */
  function VerifyToken(libs: Libraries, token: GoString): (r: VerifyOutcome)
    ensures r.calls == [ParseWithClaims(StripBearer(token), ZeroConfig.key)]
    ensures var p := libs.parseWithClaims(StripBearer(token), ZeroConfig.key);
            && (p.err.Some? ==> r == VerifyOutcome(None, Some(ErrCompareToken), r.calls))
            && (p.err.None? && !p.valid ==> r == VerifyOutcome(None, Some(ErrTokenInvalid), r.calls))
            && (p.err.None? && p.valid ==> r == VerifyOutcome(Some(p.claims), None, r.calls))
  {
    ParseAndCheck(libs, StripBearer(token))
  }
}
