# Authentication service of movie-database, modelled in Dafny

This project models package `auth` of the movie-database web service
(`internal/app/auth/service.go`). The package has two entry points:

- `Service.Login` checks a login request in a fixed order and stops at the first failure. It validates the request struct, looks the user up by email, rejects a locked account and compares the bcrypt hash with the supplied password. If every check passes, it builds JWT claims (the request's email, the user's id and role, and an expiry 500 minutes after now) and signs them with HS256. It returns `(token, nil)` or `("", err)`.
- `VerifyToken` strips an optional `"Bearer "` prefix, which is the syntax of the `Authorization` header in section 2.1 of RFC 6750. It parses the token with `jwt.ParseWithClaims` and maps a parse error to `ErrCompareToken` and a parsed but invalid token to `ErrTokenInvalid`. Otherwise it returns the claims.

Both functions are pure chains of guarded early returns, so the model uses
functions, datatypes and lemmas:

- `auth_types.dfy` (module `AuthTypes`): requests, user records, claims and Go errors. An `Option<Error>` is an error that may be nil.
- `auth_service.dfy` (module `AuthService`): `NewService`, `Login`, `VerifyToken` and their parts.
- `auth_properties.dfy` (module `AuthProperties`): lemmas about check order, error propagation, the signing key and the bearer prefix.

The collaborators the service calls but does not implement are fields of the
`Libraries` and `Service` datatypes: function values the model knows nothing
about. They are the struct validator, `UserService.FindUserByEmail`,
`bcrypt.CompareHashAndPassword`, HS256 signing and `jwt.ParseWithClaims`.

Each outcome also records the collaborator calls that were made, in order, as
`calls`. The Go functions do not return this list. It exists so that
"the password is never compared" can be stated.

The clock is a parameter: `now` is the current time in Unix seconds, so the
expiry is `now + 30000`.

Both paths use the zero-value key `""`, which the model calls `ZeroConfig`.
The `envconfig` default on the unexported field is never applied anywhere in
package `auth`: `NewService` does not set `conf`, and `VerifyToken` builds a
fresh `config{}`. The model proves that signing and parsing use the same key.
It says nothing about where a key would come from.

Notes on what the code does:

- Every parse failure becomes the single error `ErrCompareToken`: expiry, bad signature and malformed input alike. There are no separate expiry and signature errors.
- The key is the zero value, not a configured secret.

## Model

| member | source | states |
|---|---|---|
| AuthService.Login | internal/app/auth/service.go:35-70 | every failing path returns an empty token; the first call is always validation and at most four calls happen; the error is nil exactly when the fourth call is HS256 signing and the signer reported no error; the nil-error token is the signer's string under the service's key |
| AuthService.IssueClaims | internal/app/auth/service.go:51-59 | the claims carry the request's email, the user record's id and role, and expire 30000 seconds (500 minutes) after `now` |
| AuthService.StripBearer | internal/app/auth/service.go:73-78 | a value starting with `"Bearer "` is that prefix followed by the result; any other value is passed on unchanged |
| AuthService.StripBearerAsWritten | internal/app/auth/service.go:73-78 | the original slice panics exactly when the value is shorter than 7 bytes; otherwise the prefix is removed exactly when the first 7 bytes are `"Bearer "` (then the value is `"Bearer "` followed by the result), and the result equals `StripBearer` of the value |
| AuthService.ParseAndCheck | internal/app/auth/service.go:79-90 | the parser is called once, with the zero-value key; a parse error gives `ErrCompareToken`, a parsed but invalid token gives `ErrTokenInvalid`; the error is nil exactly when both checks pass, and claims come back exactly then, equal to the parsed claims |
| AuthService.VerifyTokenAsWritten | internal/app/auth/service.go:72-91 | the original function panics exactly on values shorter than 7 bytes |
| AuthService.VerifyToken | internal/app/auth/service.go:72-91 | the stripped token is parsed with the zero-value key; a parse error maps to `(nil, ErrCompareToken)`, an invalid token to `(nil, ErrTokenInvalid)`, and a valid one to `(claims, nil)` |
| AuthProperties.LoginFollowsPipeline | internal/app/auth/service.go:35-69 | the calls of every login are a prefix of validate, look up, compare, sign; when the user is found, the hash compared is that user's and the claims signed are `IssueClaims` for that user; when the lookup fails, nothing runs after it; the lookup runs only after validation passed, the comparison only for a found unlocked user, and signing only after the comparison passed |
| AuthProperties.ValidationFailureStopsLogin | internal/app/auth/service.go:36-39 | a request the validator rejects yields the validator's error and `""`, and the user store is never called |
| AuthProperties.LookupErrorPropagates | internal/app/auth/service.go:40-43 | a user-store error is returned unchanged with `""`; no comparison and no signing happens |
| AuthProperties.LockedRejectedWhateverPassword | internal/app/auth/service.go:44-46 | for every password, a locked user yields `ErrUserIsLocked` and `""`; the password is never compared and nothing is signed |
| AuthProperties.PasswordMismatchPropagates | internal/app/auth/service.go:47-50 | for an unlocked user, a failing hash comparison returns its error with `""`, and nothing is signed |
| AuthProperties.SigningErrorPropagates | internal/app/auth/service.go:60-67 | a signing error is returned unchanged with `""`, even when the signer also returned a string |
| AuthProperties.LoginSucceedsIff | internal/app/auth/service.go:35-69 | the error is nil if and only if validation passes, the user is found and unlocked, the hash matches and signing succeeds; then the signed claims hold the request's email, the stored id and role, and expire at `now + 30000`, and the token is the signer's |
| AuthProperties.SameKeyForSigningAndParsing | internal/app/auth/service.go:29-33 | a service made by `NewService` signs with the same key that `VerifyToken`'s `config{}` (lines 80-82) parses with |
| AuthProperties.StripBearerAfterPrefix | internal/app/auth/service.go:74-75 | stripping undoes prepending `"Bearer "` |
| AuthProperties.PrefixedVerifiesAsBare | internal/app/auth/service.go:73-78 | `"Bearer " + t` verifies exactly as `t` does, for every `t` that does not itself start with the prefix |
| AuthProperties.LoginThenVerify | internal/app/auth/service.go:35-91 | if the parser accepts what the signer produced under the same key, a successful login's token, sent with the bearer prefix, verifies with a nil error to the claims built from the request and the stored user |
| AuthProperties.VerifyTokenAgreesWithAsWritten | internal/app/auth/service.go:73-78 | on every value of 7 bytes or more, the bounds-checked `VerifyToken` returns what the original returns |
| AuthProperties.EmptyTokenPanicsAsWritten | internal/app/auth/service.go:74 | the original panics on an empty value, while the bounds-checked version passes `""` to the parser |

## Left out

- Struct validation rules, bcrypt hashing and comparison, JWT encoding (RFC 7519), HS256 signing (section 3.2 of RFC 7518) and the `exp` check inside `jwt.ParseWithClaims` (section 4.1.4 of RFC 7519): these are library code, so they are opaque function parameters. Expiry windows and wrong-key rejection are therefore not stated. `LoginThenVerify` takes the parser's acceptance of signed tokens as an explicit hypothesis.
- `UserService.FindUserByEmail` returning a nil user together with a nil error: `Login` would dereference nil. The lookup's type (`Result<UserInfo>`) excludes this case. The user service implementation is not part of this model.
- `context.Context` passing and `logrus` logging: neither affects any result.
- `time.Now`: the clock is the parameter `now`, in whole Unix seconds. The 64-bit range of `ExpiresAt` is not modelled, because integers are unbounded.
- `NewService`: it has no contract of its own, because it only stores the user store and leaves the key at its zero value. `SameKeyForSigningAndParsing` states what that means.
- `Claims`: only `Email`, `Id`, `Role` and `StandardClaims.ExpiresAt` are modelled. The other standard claims stay at their zero values in the source.
- The `*jwt.Token` returned by the parser: only its `Valid` flag is modelled.
- `internal/app/movie/handler.go`, `internal/app/user/handler.go` and `internal/app/types/response.go` (HTTP handlers and the status-file lookup) are not part of this model.
- Go strings are modelled as sequences of bytes, written as `seq<char>`. There is no UTF-8 decoding, which the code does not do either.

## Findings

| source | as written | input that shows it | evidently intended | confidence | as-written member | corrected member |
|---|---|---|---|---|---|---|
| internal/app/auth/service.go:74 | `token[:7]` is taken before any length check, so a value shorter than 7 bytes makes the slice panic | `""`, which is what a request without an `Authorization` header yields | strip `"Bearer "` only when present (as `strings.TrimPrefix` does) and otherwise hand the whole value to the parser | high; not executed | AuthService.VerifyTokenAsWritten, AuthProperties.EmptyTokenPanicsAsWritten | AuthService.VerifyToken, AuthProperties.VerifyTokenAgreesWithAsWritten |
