# User service core in Dafny

This project models the decision logic of the user service of a to-do
application. `UserController` registers users, logs them in and rotates their
refresh token, updates a user's email, deletes users and tells whether a
session token has expired. Its `UserRepository` keeps users in a `Users`
table.

The model is functional. A `UserInfo` is an immutable record, and the table is
a `map` from the `Id` column to the row. Each controller action is a function
that takes the table and returns a `Response`. A `Response` holds the table
after the action and either a token or an `Error`. Any exception that escapes
an action (an HTTP 500) is also an `Error`. Code outside the controller becomes
a parameter:

- the BCrypt hasher is a `Hasher` pair, `hash` and `verify`. The model assumes
  only `Sound`: a password verifies against its own hash;
- the JWT library is a `read` function. It gives back the claims of a token
  text, or `None` when it cannot parse the text. A token the service issues
  is an unsigned `Token`: its claim list and its expiry;
- the random refresh-token text is a `random` string;
- the clock is a `Clock`. It holds the current Unix second and the local
  offset from UTC;
- the key the table assigns to an inserted row is a `newId` that is not yet a
  key.

`DateTime` values are whole seconds since 0001-01-01 (`Ticks` / 10^7). The
expiry check compares a midnight, a whole second, with the current local time.
Such a comparison does not depend on the sub-second part, so this rounding is
exact.

Modules:

- `Results`: `Option`, `Result` and the `Error` kinds.
- `Decimal`: the decimal text of an integer, as SQLite compares a bound integer id with the text `Id` column and as the JWT library writes `exp`, and `Convert.ToInt64(string)`, which reads `exp` back.
- `Time`: local time, day starts and the expiry decision.
- `Jwt`: claims, the `bearer ` removal and the claim dictionary.
- `UserRepository`: `UserInfo` (`Models/UserInfo.cs`) and the table.
- `UserController`: the actions.
- `Scenarios`: properties that span several actions.

In these respects the code behaves as follows:

- Decoding removes every case-sensitive occurrence of `bearer ` anywhere in
  the text, not only at its start; `Bearer ` with a capital is kept.
- A token counts as expired from the first second of its local expiry day,
  even while its expiry instant is still ahead.
- Logging in with an unknown login dereferences a null record (`NullUser`).
  The action's own "User not found." branch can never be taken (`Login`
  states this).
- The token returned by registration has an empty `id` claim. The in-memory
  record never has its Id read back from the table.
- Registration does not refuse an empty login or password. Only login does.

## Model

| member | source | states |
|---|---|---|
| `Decimal.ParseInt64` | Todo.User.Api/Todo.User.Api/Controllers/UserController.cs:130 | `Convert.ToInt64` of the `exp` text yields only values in the Int64 range; empty or all-white-space text is an error |
| `Decimal.IntText` | Todo.User.Api/Todo.User.Api/Repositories/UserRepository.cs:21-26 | the decimal text of an integer: digits only, with a leading `-` exactly for negative values (the text a delete by integer id is compared with) |
| `Decimal.ParseIntText` | Todo.User.Api/Todo.User.Api/Controllers/UserController.cs:130 | parsing the decimal text of any Int64 gives that integer back (the `exp` claim written as text is read back as the same number) |
| `Decimal.IntTextInjective` | Todo.User.Api/Todo.User.Api/Repositories/UserRepository.cs:21-26 | two different integers never have the same text, so a delete by integer id names one key |
| `Decimal.DigitsValueOfNatText` | Todo.User.Api/Todo.User.Api/Controllers/UserController.cs:130 | the digits written for a natural number read back as that number |
| `Time.ToLocal` | Todo.User.Api/Todo.User.Api/Controllers/UserController.cs:132-135 | the local time of an instant is the instant shifted by the epoch and the local offset when that lies within `DateTime`'s years, and saturates at `DateTime.MinValue` below and `DateTime.MaxValue` above |
| `Time.DayStart` | Todo.User.Api/Todo.User.Api/Controllers/UserController.cs:137 | `.Date` is the midnight at or before the time and less than one day before it |
| `Time.Clamp` | Todo.User.Api/Todo.User.Api/Controllers/UserController.cs:135 | `ToLocalTime` keeps times within `DateTime`'s years unchanged and saturates at its minimum and maximum |
| `Time.Now` | Todo.User.Api/Todo.User.Api/Controllers/UserController.cs:137 | `DateTime.Now` lies within `DateTime`'s years and, within them, is the clock's UTC instant shifted by the local offset |
| `Time.IsExpiredAt` | Todo.User.Api/Todo.User.Api/Controllers/UserController.cs:130-142 | the token is reported expired exactly when its local calendar day is not later than today's local day |
| `Time.DayStartAfterIff` | Todo.User.Api/Todo.User.Api/Controllers/UserController.cs:137 | the expiry's midnight is after now iff the expiry's day number exceeds today's |
| `Time.NotExpiredIsFuture` | Todo.User.Api/Todo.User.Api/Controllers/UserController.cs:137-139 | "not expired" implies the expiry instant is strictly after now |
| `Time.ExpiredStaysExpired` | Todo.User.Api/Todo.User.Api/Controllers/UserController.cs:137-142 | once reported expired, a token stays expired for every later clock reading in the same time zone |
| `Time.ExpiresLaterTodayIsExpired` | Todo.User.Api/Todo.User.Api/Controllers/UserController.cs:137-142 | an expiry still ahead of now but on today's local date is already reported expired |
| `Time.ExpiresNextSecondIsExpired` | Todo.User.Api/Todo.User.Api/Controllers/UserController.cs:137-142 | that case arises: an expiry one second from now that is still today is on today's date and is reported expired |
| `Time.WeekAheadNotExpired` | Todo.User.Api/Todo.User.Api/Controllers/UserController.cs:137-142 | a token expiring seven days from now is not expired |
| `Time.DayBehindExpired` | Todo.User.Api/Todo.User.Api/Controllers/UserController.cs:137-142 | a token that expired a day ago is expired |
| `Jwt.RemoveAll` | Todo.User.Api/Todo.User.Api/Controllers/UserController.cs:222 | `Replace(pat, "")` never lengthens the text |
| `Jwt.RemoveAllUnchangedIff` | Todo.User.Api/Todo.User.Api/Controllers/UserController.cs:222 | the text is returned unchanged iff the pattern occurs nowhere in it; otherwise it gets shorter |
| `Jwt.RemoveAllKeepsPrefix` | Todo.User.Api/Todo.User.Api/Controllers/UserController.cs:222 | characters at which no occurrence of the pattern starts are kept unchanged, and removal continues on the rest |
| `Jwt.RemoveAllAtStart` | Todo.User.Api/Todo.User.Api/Controllers/UserController.cs:222 | an occurrence at the start of the text is dropped and removal continues right after it |
| `Jwt.RemoveAllAtFirst` | Todo.User.Api/Todo.User.Api/Controllers/UserController.cs:222 | the leftmost occurrence, at any position, is dropped: the text before it is kept and removal resumes right after it, so text it produces is not scanned again |
| `Jwt.StripBearerAtFirst` | Todo.User.Api/Todo.User.Api/Controllers/UserController.cs:222 | the first `bearer ` is dropped wherever it stands in the token, with the text before it kept and the rest stripped the same way |
| `Jwt.StripBearer` | Todo.User.Api/Todo.User.Api/Controllers/UserController.cs:222 | the text handed to the reader is never longer than the token, and equals it exactly when `bearer ` does not occur in it |
| `Jwt.StripBearerPrefix` | Todo.User.Api/Todo.User.Api/Controllers/UserController.cs:222 | a leading `bearer ` is dropped along with all later occurrences |
| `Jwt.StripBearerOfCompact` | Todo.User.Api/Todo.User.Api/Controllers/UserController.cs:222 | text without spaces passes unchanged, with or without a leading `bearer ` |
| `Jwt.StripBearerExamples` | Todo.User.Api/Todo.User.Api/Controllers/UserController.cs:222 | an occurrence in the middle is removed; `Bearer ` with a capital is kept |
| `Jwt.AddClaims` | Todo.User.Api/Todo.User.Api/Controllers/UserController.cs:225-229 | adding claims to a dictionary keeps all of its earlier keys |
| `Jwt.Payload` | Todo.User.Api/Todo.User.Api/Controllers/UserController.cs:202-207 | the claims read back from an issued token are its own claims in order followed by an `exp` claim whose text parses back to the expiry |
| `Jwt.AddClaimsOk` | Todo.User.Api/Todo.User.Api/Controllers/UserController.cs:225-229 | adding succeeds iff no claim type repeats or is already a key; then the dictionary holds the old entries and every claim |
| `Jwt.AddClaimsErr` | Todo.User.Api/Todo.User.Api/Controllers/UserController.cs:225-229 | a failure names the first claim whose type was already a key or repeats an earlier claim; every claim before it has a new, distinct type |
| `Jwt.TypesOfCons` | Todo.User.Api/Todo.User.Api/Controllers/UserController.cs:226-229 | the claim types of a list are the first claim's type plus those of the rest |
| `Jwt.DistinctTypesCons` | Todo.User.Api/Todo.User.Api/Controllers/UserController.cs:226-229 | a list has distinct types iff its tail does and the first type is not in the tail |
| `Jwt.CollectClaims` | Todo.User.Api/Todo.User.Api/Controllers/UserController.cs:225-231 | collecting fails iff two claims share a type, and the error names the type of the first claim that repeats an earlier one; on success the keys are exactly the claim types and every type maps to its claim's value |
| `Jwt.DecodeJwtToken` | Todo.User.Api/Todo.User.Api/Controllers/UserController.cs:218-232 | unreadable text is `MalformedToken`; decoding succeeds iff the reader parses the stripped text and its claim types are distinct, and then the dictionary is exactly those claims |
| `UserRepository.FindByLogin` | Todo.User.Api/Todo.User.Api/Repositories/UserRepository.cs:45-52 | null iff no row has the login; otherwise a row with exactly that login, read together with its Id |
| `UserRepository.FindByLoginUnique` | Todo.User.Api/Todo.User.Api/Repositories/UserRepository.cs:45-52 | when one row alone has the login, the lookup returns that row |
| `UserRepository.Insert` | Todo.User.Api/Todo.User.Api/Repositories/UserRepository.cs:54-59 | exactly one new row appears, holding every column of the record under the fresh key; existing rows are untouched |
| `UserRepository.Put` | Todo.User.Api/Todo.User.Api/Repositories/UserRepository.cs:61-73 | the row with the record's Id is overwritten in every column; no other row changes; nothing changes when no row has that Id |
| `UserRepository.Delete` | Todo.User.Api/Todo.User.Api/Repositories/UserRepository.cs:21-26 | the row keyed by the id's text is removed if present; all other rows are kept as they were |
| `UserRepository.DeleteIdempotent` | Todo.User.Api/Todo.User.Api/Controllers/UserController.cs:115-119 | deleting twice equals deleting once; deleting an absent id is a no-op |
| `UserRepository.DeleteDistinctIds` | Todo.User.Api/Todo.User.Api/Repositories/UserRepository.cs:21-26 | deleting one id never removes the row of a different id |
| `UserRepository.InsertPreserves` | Todo.User.Api/Todo.User.Api/Repositories/UserRepository.cs:54-59 | inserting a record whose login is free keeps Ids equal to keys and logins unique |
| `UserRepository.PutPreserves` | Todo.User.Api/Todo.User.Api/Repositories/UserRepository.cs:61-73 | rewriting a row with the same Id and login keeps Ids equal to keys and logins unique |
| `UserRepository.DeletePreserves` | Todo.User.Api/Todo.User.Api/Repositories/UserRepository.cs:21-26 | deleting keeps Ids equal to keys and logins unique |
| `UserController.GenerateRefreshToken` | Todo.User.Api/Todo.User.Api/Controllers/UserController.cs:149-158 | the refresh token is the random text; it is created at local now and expires exactly seven days after its creation |
| `UserController.SetRefreshToken` | Todo.User.Api/Todo.User.Api/Controllers/UserController.cs:165-179 | the three refresh-token fields are set together; Id, login, email and password hash are preserved |
| `UserController.CreateToken` | Todo.User.Api/Todo.User.Api/Controllers/UserController.cs:185-211 | exactly three claims of distinct types, in order `id` (empty for a null Id), `name` = login, `email` = email; expiry seven days after now |
| `UserController.IdClaim` | Todo.User.Api/Todo.User.Api/Controllers/UserController.cs:189 | the `id` claim is the record's Id, or the empty string for a null Id |
| `UserController.NewUser` | Todo.User.Api/Todo.User.Api/Controllers/UserController.cs:58-60 | the record registration stores has the request's login and email, the new password hash, a null Id and default refresh-token columns |
| `UserController.Register` | Todo.User.Api/Todo.User.Api/Controllers/UserController.cs:51-67 | "user found" iff the login is taken, with the table unchanged; otherwise exactly one row is added under the new key with the password's hash and empty refresh fields, the password verifies against the stored hash, and the token has an empty `id` |
| `UserController.Login` | Todo.User.Api/Todo.User.Api/Controllers/UserController.cs:69-91 | empty fields are refused; an unknown login is a null dereference; "User not found." never happens; failure leaves the table unchanged; success iff the password verifies; on success the row the lookup returned, whose hash was checked, is the only one whose refresh token, creation and expiry (creation + 7 days) change, and the token names that row |
| `UserController.Put` | Todo.User.Api/Todo.User.Api/Controllers/UserController.cs:93-111 | "User not found." iff no row has the login, with the table unchanged; otherwise only the email of the row the lookup returned changes (hash and refresh fields kept), and the token names that row and carries the new email |
| `UserController.HasTokenExpired` | Todo.User.Api/Todo.User.Api/Controllers/UserController.cs:121-143 | decoding errors propagate; a token without `exp` is "Invalid Token."; an `exp` that is not an Int64 numeral is `BadNumber`; one outside the years `DateTimeOffset` can hold is `TimeOutOfRange`; every other token gets an answer, which is "expired" iff its local day is not after today, and "not expired" implies `exp` is ahead |
| `Scenarios.RegisterThenLogin` | Todo.User.Api/Todo.User.Api/Controllers/UserController.cs:55-90 | after registering, logging in with the same credentials succeeds, rotates the new row's refresh token and returns a token with that row's id and the login as `name` |
| `Scenarios.RegisterTwiceRefused` | Todo.User.Api/Todo.User.Api/Controllers/UserController.cs:55-57 | a second registration of the same login is refused and the table is unchanged |
| `Scenarios.RegisterThenWrongPassword` | Todo.User.Api/Todo.User.Api/Controllers/UserController.cs:82-83 | after registering, a password that does not verify gets "Bad password." and the table is unchanged |
| `Scenarios.LoginReplacesRefreshToken` | Todo.User.Api/Todo.User.Api/Controllers/UserController.cs:174-178 | a second login overwrites the first login's refresh token and timestamps |
| `Scenarios.PutIdempotent` | Todo.User.Api/Todo.User.Api/Controllers/UserController.cs:97-107 | repeating a profile update leaves the table as the first update left it |
| `Scenarios.PutKeepsPassword` | Todo.User.Api/Todo.User.Api/Controllers/UserController.cs:105-107 | a profile update does not stop a password that logged in from logging in |
| `Scenarios.RegisterPreservesInvariants` | Todo.User.Api/Todo.User.Api/Controllers/UserController.cs:55-63 | the duplicate check before the insert keeps logins unique and Ids equal to keys |
| `Scenarios.LoginPreservesInvariants` | Todo.User.Api/Todo.User.Api/Controllers/UserController.cs:86-87 | login keeps logins unique and Ids equal to keys |
| `Scenarios.PutPreservesInvariants` | Todo.User.Api/Todo.User.Api/Controllers/UserController.cs:105-107 | a profile update keeps logins unique and Ids equal to keys |
| `Scenarios.DecodeIssuedToken` | Todo.User.Api/Todo.User.Api/Controllers/UserController.cs:187-192 | a token the service issued decodes, with or without `bearer `, to exactly `id`, `name`, `email` and `exp` |
| `Scenarios.FreshTokenNotExpired` | Todo.User.Api/Todo.User.Api/Controllers/UserController.cs:121-143 | a token issued now is reported not expired now |
| `Scenarios.HasTokenExpiredStays` | Todo.User.Api/Todo.User.Api/Controllers/UserController.cs:121-143 | once the expiry check answers "expired" it answers so at every later time in the same time zone |

## Left out

- BCrypt hashing and verification are a foreign library. They are the `Hasher` parameter, and the model assumes only `Sound`. Salting is hidden inside `hash`.
- JWT signing, serialisation and parsing (`JwtSecurityTokenHandler`, HMAC-SHA256) are a foreign library. Issued tokens are unsigned `Token` values, and reading a token is the `read` parameter.
- `RandomNumberGenerator.GetBytes(64)` and its Base64 encoding are randomness. The refresh-token text is the `random` parameter.
- The refresh-token cookie write (UserController.cs:167-172) is HTTP output.
- The clock is a parameter. One `Clock` value stands for all `DateTime.Now` and `DateTime.UtcNow` reads made during one action.
- Time zone rules are reduced to a single fixed UTC offset. Daylight-saving changes are not modelled, and `Time.ExpiredStaysExpired` holds only for a fixed offset.
- `AddDays(7)` overflowing past year 9999 is not modelled. Refresh-token expiry is the creation time plus one week, without a range check.
- `Jwt.Payload` is an assumption about the JWT library, not a model of it: that reading an issued token yields its claims in order followed by `exp` written as the decimal text of the expiry. `Scenarios.DecodeIssuedToken` and `Scenarios.FreshTokenNotExpired` rely on it.
- `Convert.ToInt64` also accepts trailing NUL characters and culture-specific signs. Neither is modelled.
- `UserDto` is not part of this model. It is taken to carry `Login`, `Password` and `Email`, and AutoMapper is taken to copy `Login` and `Email`.
- The `Users` table's schema is not in the repository. The model assumes that an insert without an Id gets a fresh key, and that keys are the decimal text Dapper reads back, so a delete by integer id matches the key equal to that integer's text. SQLite auto-assigns only an `INTEGER PRIMARY KEY`, which would compare numerically; for keys in canonical decimal form the outcome is the same.
- The key that the table assigns on insert is the `newId` parameter. Database failures are not modelled: connection errors and constraint violations.
- Strings are never null in the model, so `null` email or login exceptions in `CreateToken` do not arise.
- `UserRepository.Get()` (UserRepository.cs:28-33) and `Get(int id)` (35-43) are not used by the modelled actions and are not modelled.
- The `Get` action with an authorization header (UserController.cs:44-49) only returns `DecodeJwtToken`, which is modelled.
- `Delete` in the controller (UserController.cs:113-119) only forwards to the repository. `UserRepository.Delete` models it.
- Program.cs, DataContext.cs, Mapper.cs and IUserRepository.cs are wiring with no decisions.
- Concurrency is not modelled, including the check-then-insert race of registration. Each action is one atomic step.
- HTTP status codes and the text of error messages are reduced to `Error` kinds.
