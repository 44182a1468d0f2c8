/** Properties that relate several actions of the controller: sessions that
    follow a registration, repeated actions, table invariants, and tokens the
    service issued coming back to it. */
module Scenarios {
  import opened Results
  import opened UserRepository
  import opened Jwt
  import opened Time
  import opened UserController
  import Decimal

  /** After a successful registration, logging in with the same login and
      password succeeds, rotates the refresh token of the new row and yields a
      token naming that row and that login. */
  lemma RegisterThenLogin(store: Store, h: Hasher, login: string, password: string, email: string,
                          newId: Id, c: Clock, random: string, later: Clock)
    requires newId !in store && Sound(h)
    requires login != "" && password != ""
    requires Register(store, h, login, password, email, newId, c).body.Ok?
    ensures var s1 := Register(store, h, login, password, email, newId, c).store;
            var r := Login(s1, h, login, password, random, later);
            && r.body.Ok?
            && r.body.value.claims == [Claim("id", newId), Claim("name", login), Claim("email", email)]
            && r.store[newId].refreshToken == random
  {
    var s1 := Register(store, h, login, password, email, newId, c).store;
    assert forall j :: j in s1 && s1[j].login == login ==> j == newId;
    FindByLoginUnique(s1, login, newId);
    var r := Login(s1, h, login, password, random, later);
    assert FindByLogin(s1, login).value.id.value == newId;
  }

  /** Registering a login a second time is refused. */
  lemma RegisterTwiceRefused(store: Store, h: Hasher, login: string, password: string, email: string,
                             newId: Id, c: Clock, password2: string, email2: string, newId2: Id, c2: Clock)
    requires newId !in store
    requires Register(store, h, login, password, email, newId, c).body.Ok?
    requires newId2 !in Register(store, h, login, password, email, newId, c).store
    ensures var s1 := Register(store, h, login, password, email, newId, c).store;
            Register(s1, h, login, password2, email2, newId2, c2) == Response(s1, Err(UserFound))
  {
    var s1 := Register(store, h, login, password, email, newId, c).store;
    assert s1[newId].login == login;
  }

  /** A password that does not verify against the stored hash is refused
      after registration, and the table is unchanged. */
  lemma RegisterThenWrongPassword(store: Store, h: Hasher, login: string, password: string, email: string,
                                  newId: Id, c: Clock, wrong: string, random: string, later: Clock)
    requires newId !in store
    requires login != "" && wrong != ""
    requires !h.verify(wrong, h.hash(password))
    requires Register(store, h, login, password, email, newId, c).body.Ok?
    ensures var s1 := Register(store, h, login, password, email, newId, c).store;
            Login(s1, h, login, wrong, random, later) == Response(s1, Err(BadPassword))
  {
    var s1 := Register(store, h, login, password, email, newId, c).store;
    assert forall j :: j in s1 && s1[j].login == login ==> j == newId;
    FindByLoginUnique(s1, login, newId);
  }

  /** A second login replaces the refresh token of the first: one active
      refresh token per account. */
  lemma LoginReplacesRefreshToken(store: Store, h: Hasher, login: string, password: string,
                                  random1: string, c1: Clock, random2: string, c2: Clock, k: Id)
    requires UniqueLogins(store)
    requires k in store && store[k].login == login
    requires Login(store, h, login, password, random1, c1).body.Ok?
    ensures var s1 := Login(store, h, login, password, random1, c1).store;
            var s2 := Login(s1, h, login, password, random2, c2);
            && s2.body.Ok?
            && s2.store[k].refreshToken == random2
            && s2.store[k].tokenCreated == Now(c2)
            && s2.store[k].tokenExpires == Now(c2) + Week
  {
    var r1 := Login(store, h, login, password, random1, c1);
    FindByLoginUnique(store, login, k);
    var s1 := r1.store;
    assert forall j :: j in s1 && s1[j].login == login ==> j == k;
    FindByLoginUnique(s1, login, k);
    var r2 := Login(s1, h, login, password, random2, c2);

  }

  /** Repeating a profile update changes nothing more. */
  lemma PutIdempotent(store: Store, userInfo: UserInfo, c: Clock)
    requires UniqueLogins(store)
    ensures var s1 := UserController.Put(store, userInfo, c).store;
            UserController.Put(s1, userInfo, c).store == s1
  {
    var r1 := UserController.Put(store, userInfo, c);
    if r1.body.Ok? {
      var k := FindByLogin(store, userInfo.login).value.id.value;
      var s1 := r1.store;
      assert forall j :: j in s1 && s1[j].login == userInfo.login ==> j == k;
      FindByLoginUnique(s1, userInfo.login, k);
      var r2 := UserController.Put(s1, userInfo, c);
      assert r2.store == s1;
    }
  }

  /** A profile update keeps the credentials: the password that logged in
      before still logs in afterwards. */
  lemma PutKeepsPassword(store: Store, h: Hasher, userInfo: UserInfo, c: Clock, password: string,
                         random: string, later: Clock)
    requires UniqueLogins(store)
    requires userInfo.login != "" && password != ""
    requires Login(store, h, userInfo.login, password, random, later).body.Ok?
    ensures Login(UserController.Put(store, userInfo, c).store, h, userInfo.login, password, random, later).body.Ok?
  {
    var login := userInfo.login;
    var r0 := Login(store, h, login, password, random, later);
    var k := FindByLogin(store, login).value.id.value;
    var r1 := UserController.Put(store, userInfo, c);
    var s1 := r1.store;
    assert forall j :: j in s1 && s1[j].login == login ==> j == k;
    FindByLoginUnique(s1, login, k);
  }

  /** Registration keeps each row's Id equal to its key and logins unique:
      the duplicate check runs before the insert. */
  lemma RegisterPreservesInvariants(store: Store, h: Hasher, login: string, password: string,
                                    email: string, newId: Id, c: Clock)
    requires newId !in store
    requires WellFormed(store) && UniqueLogins(store)
    ensures var r := Register(store, h, login, password, email, newId, c).store;
            WellFormed(r) && UniqueLogins(r)
  {
  }

  /** Login keeps each row's Id equal to its key and logins unique. */
  lemma LoginPreservesInvariants(store: Store, h: Hasher, login: string, password: string,
                                 random: string, c: Clock)
    requires WellFormed(store) && UniqueLogins(store)
    ensures var r := Login(store, h, login, password, random, c).store;
            WellFormed(r) && UniqueLogins(r)
  {
    var rl := Login(store, h, login, password, random, c);
    if rl.body.Ok? {
      var k := FindByLogin(store, login).value.id.value;
      assert rl.store[k].login == store[k].login;
    }
  }

  /** A profile update keeps each row's Id equal to its key and logins unique. */
  lemma PutPreservesInvariants(store: Store, userInfo: UserInfo, c: Clock)
    requires WellFormed(store) && UniqueLogins(store)
    ensures var r := UserController.Put(store, userInfo, c).store;
            WellFormed(r) && UniqueLogins(r)
  {
    var rp := UserController.Put(store, userInfo, c);
    if rp.body.Ok? {
      var k := FindByLogin(store, userInfo.login).value.id.value;
      assert rp.store[k].login == store[k].login;
    }
  }

  /** A token the service issued, read back by the JWT reader, decodes to its
      three claims and its expiry, with or without the lower-case marker. */
  lemma DecodeIssuedToken(read: string -> Option<seq<Claim>>, user: UserInfo, c: Clock, jwt: string)
    requires read(jwt) == Some(Payload(CreateToken(user, c)))
    requires ' ' !in jwt
    ensures DecodeJwtToken(read, Bearer + jwt) == DecodeJwtToken(read, jwt)
    ensures DecodeJwtToken(read, jwt) ==
              Ok(map["id" := IdClaim(user.id), "name" := user.login, "email" := user.email,
                     "exp" := Decimal.IntText(c.utc + Week)])
  {
    StripBearerOfCompact(jwt);
    var cs := Payload(CreateToken(user, c));
    assert cs == [Claim("id", IdClaim(user.id)), Claim("name", user.login), Claim("email", user.email),
                  Claim("exp", Decimal.IntText(c.utc + Week))];
    assert DistinctTypes(cs);
    assert DecodeJwtToken(read, jwt) == CollectClaims(cs);
    var m := CollectClaims(cs).value;
    var expected := map["id" := IdClaim(user.id), "name" := user.login, "email" := user.email,
                        "exp" := Decimal.IntText(c.utc + Week)];
    assert TypesOf(cs) == expected.Keys by {
      assert cs[0].claimType == "id" && cs[1].claimType == "name";
      assert cs[2].claimType == "email" && cs[3].claimType == "exp";
    }
    assert m["id"] == cs[0].value;
    assert m["name"] == cs[1].value;
    assert m["email"] == cs[2].value;
    assert m["exp"] == cs[3].value;
    assert m == expected;
  }

  /** A token issued now is not expired now, as long as its expiry and today
      are ordinary dates. */
  lemma FreshTokenNotExpired(read: string -> Option<seq<Claim>>, user: UserInfo, c: Clock, jwt: string)
    requires read(jwt) == Some(Payload(CreateToken(user, c)))
    requires ' ' !in jwt
    requires MinUnixSeconds <= c.utc && c.utc + Week <= MaxUnixSeconds
    requires 0 <= c.utc + UnixEpoch + c.offset
    requires c.utc + Week + UnixEpoch + c.offset <= MaxDateTime
    ensures HasTokenExpired(read, jwt, c) == Ok(false)
    ensures HasTokenExpired(read, Bearer + jwt, c) == Ok(false)
  {
    DecodeIssuedToken(read, user, c, jwt);
    Decimal.ParseIntText(c.utc + Week);
    WeekAheadNotExpired(c);
  }

  /** Once a token is reported expired, it stays expired as time passes. */
  lemma HasTokenExpiredStays(read: string -> Option<seq<Claim>>, token: string, c: Clock, later: Clock)
    requires later.offset == c.offset && c.utc <= later.utc
    requires HasTokenExpired(read, token, c) == Ok(true)
    ensures HasTokenExpired(read, token, later) == Ok(true)
  {
    var exp := Decimal.ParseInt64(DecodeJwtToken(read, token).value["exp"]).value;
    ExpiredStaysExpired(exp, c, later);
  }
}
