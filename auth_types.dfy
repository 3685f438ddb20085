/** Values that flow through the authentication service of package `auth`:
    the login request, the user record handed back by the user store, the JWT
    claims, Go's `error` values, and the collaborators the service calls but
    does not implement (struct validation, the user store, bcrypt, JWT signing
    and parsing), which the model takes as function-valued parameters. */
module AuthTypes {

  /** A Go string. Each element stands for one byte: Go's `len`, indexing and
      slicing count bytes, so a multi-byte UTF-8 character is several elements. */
  type GoString = seq<char>

  datatype Option<+T> = None | Some(value: T)

  /** An error produced by a collaborator (validator, user store, bcrypt, jwt).
      The service never looks inside it; it only passes it on or replaces it. */
  datatype ForeignError = ForeignError(message: GoString)

  /** A non-nil Go `error`; a Go `error` that may be nil is an `Option<Error>`.
      The first three are the sentinel errors of package `auth`. */
  datatype Error =
    | ErrUserIsLocked
    | ErrCompareToken
    | ErrTokenInvalid
    | Foreign(cause: ForeignError)

  /** A value or a non-nil error, for a collaborator that returns one or the other. */
  datatype Result<+T> = Ok(value: T) | Err(error: ForeignError)

  /** The fields of `types.UserInfo` that the service reads; `password` is the bcrypt hash. */
  datatype UserInfo = UserInfo(id: GoString, email: GoString, password: GoString, role: GoString, locked: bool)

  /** The credentials of one login attempt. */
  datatype LoginRequest = LoginRequest(email: GoString, password: GoString)

  /** The JWT claims the service issues; `expiresAt` is `StandardClaims.ExpiresAt`, in Unix seconds. */
  datatype Claims = Claims(email: GoString, id: GoString, role: GoString, expiresAt: int)

  /** What `(*jwt.Token).SignedString` hands back: the token string and an error that may be nil. */
  datatype Signed = Signed(tokenString: GoString, err: Option<ForeignError>)

  /** What `jwt.ParseWithClaims` leaves behind: the parsed token's `Valid` flag,
      the claims it filled in, and its error, which may be nil. */
  datatype Parsed = Parsed(valid: bool, claims: Claims, err: Option<ForeignError>)

  /** The library calls of the service, each a function of exactly what the service passes to it.
      - validate: `validator.New().Struct(req)`
      - compareHashAndPassword: `bcrypt.CompareHashAndPassword(hash, password)`
      - signHS256: `jwt.NewWithClaims(jwt.SigningMethodHS256, claims).SignedString(key)`
      - parseWithClaims: `jwt.ParseWithClaims(token, &claims, keyFunc)` with `keyFunc` returning `key` */
  datatype Libraries = Libraries(
    validate: LoginRequest -> Option<ForeignError>,
    compareHashAndPassword: (GoString, GoString) -> Option<ForeignError>,
    signHS256: (Claims, GoString) -> Signed,
    parseWithClaims: (GoString, GoString) -> Parsed)

  /** The unexported `config` struct: the HMAC key. */
  datatype Config = Config(key: GoString)

  /** `auth.Service`: its configuration and the injected user store (`UserService.FindUserByEmail`). */
  datatype Service = Service(conf: Config, findUserByEmail: GoString -> Result<UserInfo>)

  /** One call from the service into a collaborator, with its arguments. */
  datatype Call =
    | Validate(req: LoginRequest)
    | FindUserByEmail(email: GoString)
    | CompareHashAndPassword(hash: GoString, password: GoString)
    | SignHS256(claims: Claims, key: GoString)
    | ParseWithClaims(token: GoString, key: GoString)

  /** What `Login` returns (`token`, `err`), together with the collaborator calls it made, in order.
      The calls are an observation for stating the check order; the Go function does not return them. */
  datatype LoginOutcome = LoginOutcome(token: GoString, err: Option<Error>, calls: seq<Call>)

  /** What `VerifyToken` returns (`claims`, `err`; `None` claims is a nil pointer),
      together with the collaborator calls it made. */
  datatype VerifyOutcome = VerifyOutcome(claims: Option<Claims>, err: Option<Error>, calls: seq<Call>)
}
