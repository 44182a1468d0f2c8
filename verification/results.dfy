/** Outcome types shared by the whole model. */
module Results {

  /** A value that may be absent: the model's stand-in for a C# `null` reference. */
  datatype Option<+T> = None | Some(value: T)

  /** The outcome of an operation that can fail. */
  datatype Result<+T, +E> = Ok(value: T) | Err(error: E)

  /** Every way an operation of the user service can end without a value.
      The first group are the `BadRequest` answers of the controller; the
      second group are exceptions that escape an action (an HTTP 500). */
  datatype Error =
    // "Ошибка! Пользователь найден." — register with a login that exists
    | UserFound
    // "Incorrect data" — login with an empty login or password
    | IncorrectData
    // "User not found."
    | UserNotFound
    // "Bad password."
    | BadPassword
    // "Invalid Token." — a token without an `exp` claim
    | InvalidToken
    // NullReferenceException: login with a login that has no row
    | NullUser
    // the JWT reader cannot parse the token text
    | MalformedToken
    // Dictionary.Add of a claim type that is already a key
    | DuplicateClaim(claimType: string)
    // Convert.ToInt64 of an `exp` value that is not an Int64 numeral
    | BadNumber
    // DateTimeOffset.FromUnixTimeSeconds of a value outside years 1..9999
    | TimeOutOfRange
}
