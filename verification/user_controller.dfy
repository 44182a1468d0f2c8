/** The decisions of `UserController`: register, login, profile update,
    delete and the expiry check, over the user table of `UserRepository`.

    Everything the controller reaches outside itself is a parameter: the
    password hasher, the JWT reader, the random refresh-token text and the
    clock. Each action answers with the table it leaves behind and either a
    token or an error. */
module UserController {
  import opened Results
  import opened UserRepository
  import opened Jwt
  import opened Time
  import Decimal

  /** The BCrypt pair: `hash` is the salted hash `HashPassword` returns for
      this request and `verify` is `Verify(password, hash)`. */
  datatype Hasher = Hasher(hash: string -> string, verify: (string, string) -> bool)

  /** The one property of the hasher the model relies on: a password verifies
      against its own hash. */
  ghost predicate Sound(h: Hasher) {
    forall p :: h.verify(p, h.hash(p))
  }

  /** An action's answer: the table afterwards and the token or the error. */
  datatype Response = Response(store: Store, body: Result<Token, Error>)

  /** The `RefreshToken` object of `GenerateRefreshToken`. */
  datatype RefreshToken = RefreshToken(token: string, created: int, expires: int)

  /** `GenerateRefreshToken`: `random` stands for the Base64 text of 64 random
      bytes; both timestamps are taken from the one clock reading `c`. */
  function GenerateRefreshToken(random: string, c: Clock): (r: RefreshToken)
    ensures r.token == random
    ensures r.created == Now(c) && r.expires == r.created + Week
  {
    RefreshToken(random, Now(c), Now(c) + Week)
  }

  /** The record updates of `SetRefreshToken` (it then stores the record). */
  function SetRefreshToken(rt: RefreshToken, user: UserInfo): (r: UserInfo)
    ensures r.refreshToken == rt.token && r.tokenCreated == rt.created && r.tokenExpires == rt.expires
    ensures r.id == user.id && r.login == user.login && r.email == user.email
    ensures r.passwordHash == user.passwordHash
  {
    user.(tokenExpires := rt.expires, tokenCreated := rt.created, refreshToken := rt.token)
  }

  /** The `id` claim value: the record's Id, or the empty string when null. */
  function IdClaim(id: Option<Id>): (r: string)
    ensures id.Some? ==> r == id.value
    ensures id.None? ==> r == ""
  {
    match id
    case Some(k) => k
    case None => ""
  }

  /** `CreateToken`: the claims `id`, `name`, `email` in that order, expiring
      seven days after the clock's instant. */
  function CreateToken(user: UserInfo, c: Clock): (r: Token)
    ensures DistinctTypes(r.claims)
    ensures |r.claims| == 3
    ensures r.claims[0] == Claim("id", IdClaim(user.id))
    ensures r.claims[1] == Claim("name", user.login)
    ensures r.claims[2] == Claim("email", user.email)
    ensures r.expires == c.utc + Week
  {
    Token([Claim("id", IdClaim(user.id)), Claim("name", user.login), Claim("email", user.email)], c.utc + Week)
  }

  /** The row as `Post` builds it from the request: the mapped login and email,
      the new hash, and default values for the refresh-token columns. */
  function NewUser(login: string, email: string, passwordHash: string): (r: UserInfo)
    ensures r.id.None?
    ensures r.login == login && r.email == email && r.passwordHash == passwordHash
    ensures r.refreshToken == "" && r.tokenCreated == 0 && r.tokenExpires == 0
  {
    UserInfo(None, login, email, passwordHash, "", 0, 0)
  }

  /** `Post` (register). A login that is taken is refused and the table is
      left alone; otherwise exactly one row is added, holding the hash of the
      password, and the answer is a token for the new user. That token is made
      from the in-memory record, whose Id was never read back, so its `id`
      claim is empty. */
  ghost function Register(store: Store, h: Hasher, login: string, password: string, email: string,
                          newId: Id, c: Clock): (r: Response)
    requires newId !in store
    ensures r.body == Err(UserFound) <==> LoginTaken(store, login)
    ensures r.body.Err? ==> r.body == Err(UserFound) && r.store == store
    ensures r.body.Ok? ==> && r.store.Keys == store.Keys + {newId}
                           && (forall k :: k in store ==> r.store[k] == store[k])
                           && r.store[newId] == UserInfo(Some(newId), login, email, h.hash(password), "", 0, 0)
                           && r.body.value.claims == [Claim("id", ""), Claim("name", login), Claim("email", email)]
                           && r.body.value.expires == c.utc + Week
    ensures r.body.Ok? && Sound(h) ==> h.verify(password, r.store[newId].passwordHash)
  {
    if FindByLogin(store, login).Some? then
      Response(store, Err(UserFound))
    else
      var user := NewUser(login, email, h.hash(password));
      Response(Insert(store, user, newId), Ok(CreateToken(user, c)))
  }

  /** Row `k` of `after` is row `k` of `before` with a new refresh token, set
      at the clock's local time and valid for seven days; every other row and
      every other column is as it was. */
  ghost predicate SessionRotated(before: Store, after: Store, k: Id, random: string, c: Clock)
    requires k in before
  {
    && after.Keys == before.Keys
    && (forall j :: j in before && j != k ==> after[j] == before[j])
    && after[k].id == Some(k)
    && after[k].login == before[k].login
    && after[k].email == before[k].email
    && after[k].passwordHash == before[k].passwordHash
    && after[k].refreshToken == random
    && after[k].tokenCreated == Now(c)
    && after[k].tokenExpires == after[k].tokenCreated + Week
  }

  /** `Login`. Empty fields are refused before the table is read; an unknown
      login dereferences a null record; a wrong password is refused. Only a
      verified password rotates the refresh token of the row the lookup
      returned, whose hash was checked, and yields a token carrying that row's
      id, login and email. The "User not found." answer of this action can
      never be given, because the lookup is by that very login. */
  ghost function Login(store: Store, h: Hasher, login: string, password: string,
                       random: string, c: Clock): (r: Response)
    ensures login == "" || password == "" ==> r.body == Err(IncorrectData)
    ensures login != "" && password != "" && !LoginTaken(store, login) ==> r.body == Err(NullUser)
    ensures r.body != Err(UserNotFound)
    ensures r.body.Err? ==> r.store == store
    ensures login != "" && password != "" && FindByLogin(store, login).Some? ==>
              (r.body.Ok? <==> h.verify(password, FindByLogin(store, login).value.passwordHash))
    ensures r.body.Err? && LoginTaken(store, login) && login != "" && password != "" ==>
              r.body == Err(BadPassword)
    ensures r.body.Ok? ==>
              && FindByLogin(store, login).Some?
              && var k := FindByLogin(store, login).value.id.value;
                 && k in store
                 && store[k].login == login
                 && h.verify(password, store[k].passwordHash)
                 && SessionRotated(store, r.store, k, random, c)
                 && r.body.value == Token([Claim("id", k), Claim("name", login), Claim("email", store[k].email)],
                                          c.utc + Week)
  {
    if login == "" || password == "" then
      Response(store, Err(IncorrectData))
    else
      match FindByLogin(store, login)
      case None => Response(store, Err(NullUser))
      case Some(user) =>
        if login != user.login then
          Response(store, Err(UserNotFound))
        else if !h.verify(password, user.passwordHash) then
          Response(store, Err(BadPassword))
        else
          var updated := SetRefreshToken(GenerateRefreshToken(random, c), user);
          Response(UserRepository.Put(store, updated), Ok(CreateToken(updated, c)))
  }

  /** Row `k` of `after` is row `k` of `before` with a new email; every other
      row and every other column is as it was. */
  ghost predicate EmailChanged(before: Store, after: Store, k: Id, email: string)
    requires k in before
  {
    && after.Keys == before.Keys
    && (forall j :: j in before && j != k ==> after[j] == before[j])
    && after[k] == before[k].(id := Some(k), email := email)
  }

  /** `Put` (profile update). Only the login and the email of the request
      body are used. An unknown login is refused with the table left alone;
      otherwise the row the lookup returned gets the new email and nothing else changes
      (its hash and refresh token are kept), and the answer is a token with
      the new email. */
  ghost function Put(store: Store, userInfo: UserInfo, c: Clock): (r: Response)
    ensures r.body == Err(UserNotFound) <==> !LoginTaken(store, userInfo.login)
    ensures r.body.Err? ==> r.body == Err(UserNotFound) && r.store == store
    ensures r.body.Ok? ==>
              && FindByLogin(store, userInfo.login).Some?
              && var k := FindByLogin(store, userInfo.login).value.id.value;
                 && k in store
                 && store[k].login == userInfo.login
                 && EmailChanged(store, r.store, k, userInfo.email)
                 && r.body.value == Token([Claim("id", k), Claim("name", userInfo.login),
                                           Claim("email", userInfo.email)], c.utc + Week)
  {
    match FindByLogin(store, userInfo.login)
    case None => Response(store, Err(UserNotFound))
    case Some(user) =>
      if user.login != userInfo.login then
        Response(store, Err(UserNotFound))
      else
        var updated := user.(email := userInfo.email);
        Response(UserRepository.Put(store, updated), Ok(CreateToken(updated, c)))
  }

  /** `HasTokenExpired`. Decoding failures propagate; a token without an `exp`
      claim is "Invalid Token."; an `exp` that is not an Int64 numeral, or lies
      outside the years `DateTimeOffset` can hold, is an error. Otherwise the
      answer is "expired" unless the expiry's local calendar day is later than
      today, and "not expired" implies the expiry is still ahead. */
  function HasTokenExpired(read: string -> Option<seq<Claim>>, token: string, c: Clock): (r: Result<bool, Error>)
    ensures DecodeJwtToken(read, token).Err? ==> r == Err(DecodeJwtToken(read, token).error)
    ensures DecodeJwtToken(read, token).Ok? && "exp" !in DecodeJwtToken(read, token).value ==>
              r == Err(InvalidToken)
    ensures DecodeJwtToken(read, token).Ok? && "exp" in DecodeJwtToken(read, token).value ==>
              var p := Decimal.ParseInt64(DecodeJwtToken(read, token).value["exp"]);
              && (p.None? ==> r == Err(BadNumber))
              && (p.Some? && !(MinUnixSeconds <= p.value <= MaxUnixSeconds) ==> r == Err(TimeOutOfRange))
              && (p.Some? && MinUnixSeconds <= p.value <= MaxUnixSeconds ==> r.Ok?)
    ensures r.Ok? ==> && DecodeJwtToken(read, token).Ok?
                      && "exp" in DecodeJwtToken(read, token).value
                      && Decimal.ParseInt64(DecodeJwtToken(read, token).value["exp"]).Some?
                      && var exp := Decimal.ParseInt64(DecodeJwtToken(read, token).value["exp"]).value;
                         && MinUnixSeconds <= exp <= MaxUnixSeconds
                         && (r.value <==> LocalDay(exp, c.offset) <= LocalDay(c.utc, c.offset))
                         && (!r.value ==> exp > c.utc)
  {
    match DecodeJwtToken(read, token)
    case Err(e) => Err(e)
    case Ok(claims) =>
      if "exp" !in claims then
        Err(InvalidToken)
      else
        match Decimal.ParseInt64(claims["exp"])
        case None => Err(BadNumber)
        case Some(exp) =>
          if exp < MinUnixSeconds || exp > MaxUnixSeconds then
            Err(TimeOutOfRange)
          else
            var expired := IsExpiredAt(exp, c);
            assert !expired ==> exp > c.utc by {
              if !expired { NotExpiredIsFuture(exp, c); }
            }
            Ok(expired)
  }
}
