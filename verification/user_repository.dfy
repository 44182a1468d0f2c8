/** The user record and the `Users` table it is stored in. The table is a map
    from the `Id` column to the row; the SQL statements of the repository
    become map operations. */
module UserRepository {
  import opened Results
  import Decimal

  /** The `Id` column: text, as the record's `Id` property is a string. */
  type Id = string

  /** The C# `int` the delete action receives. */
  type Int32 = x: int | -0x8000_0000 <= x <= 0x7FFF_FFFF

  /** `UserInfo`. `id` is `None` while the object has not been read from the
      table (a `null` Id); times are local `DateTime`s in whole seconds since
      0001-01-01, and 0 is `default(DateTime)`. */
  datatype UserInfo = UserInfo(
    id: Option<Id>,
    login: string,
    email: string,
    passwordHash: string,
    refreshToken: string,
    tokenCreated: int,
    tokenExpires: int)

  type Store = map<Id, UserInfo>

  /** Some row carries this login. */
  predicate LoginTaken(store: Store, login: string) {
    exists k :: k in store && store[k].login == login
  }

  /** Every row's record carries its own key as Id. */
  ghost predicate WellFormed(store: Store) {
    forall k :: k in store ==> store[k].id == Some(k)
  }

  /** No two rows share a login. */
  ghost predicate UniqueLogins(store: Store) {
    forall j, k :: j in store && k in store && store[j].login == store[k].login ==> j == k
  }

  /** `Get(string login)`: `SELECT * FROM Users WHERE Login = @Login` read with
      `QueryFirstOrDefault`, so `None` (null) when no row matches and otherwise
      one matching row with its Id column filled in. Which row comes first when
      several match is the database's choice and is left open here. */
  ghost function FindByLogin(store: Store, login: string): (r: Option<UserInfo>)
    ensures r.Some? <==> LoginTaken(store, login)
    ensures r.Some? ==> && r.value.id.Some?
                        && r.value.id.value in store
                        && r.value == store[r.value.id.value].(id := r.value.id)
                        && r.value.login == login
  {
    if LoginTaken(store, login) then
      var k :| k in store && store[k].login == login;
      Some(store[k].(id := Some(k)))
    else
      None
  }

  /** `Post(user)`: an INSERT of every column but Id; the table assigns the
      fresh key `newId`. */
  function Insert(store: Store, user: UserInfo, newId: Id): (r: Store)
    requires newId !in store
    ensures r.Keys == store.Keys + {newId}
    ensures r[newId].id == Some(newId)
    ensures r[newId].(id := user.id) == user
    ensures forall k :: k in store ==> r[k] == store[k]
  {
    store[newId := user.(id := Some(newId))]
  }

  /** `Put(user)`: `UPDATE Users SET <every column> WHERE Id = @Id`. It
      overwrites the whole row whose key is the record's Id, and changes
      nothing when no row has that key (or the Id is null). */
  function Put(store: Store, user: UserInfo): (r: Store)
    ensures r.Keys == store.Keys
    ensures user.id.Some? && user.id.value in store ==> r[user.id.value] == user
    ensures forall k :: k in store && Some(k) != user.id ==> r[k] == store[k]
    ensures user.id.None? || user.id.value !in store ==> r == store
  {
    if user.id.Some? && user.id.value in store then store[user.id.value := user] else store
  }

  /** `Delete(int id)`: `DELETE FROM Users WHERE Id = @Id`. The text column is
      compared with the decimal text of the integer. */
  function Delete(store: Store, id: Int32): (r: Store)
    ensures r.Keys == store.Keys - {Decimal.IntText(id)}
    ensures forall k :: k in r ==> r[k] == store[k]
  {
    store - {Decimal.IntText(id)}
  }

  /** When a single row carries the login the lookup is determined: it
      returns that row. */
  lemma FindByLoginUnique(store: Store, login: string, k: Id)
    requires k in store && store[k].login == login
    requires forall j :: j in store && store[j].login == login ==> j == k
    ensures FindByLogin(store, login) == Some(store[k].(id := Some(k)))
  {
    var r := FindByLogin(store, login);
    assert store[r.value.id.value].login == login;
  }

  /** Deleting twice is deleting once, and deleting an absent id changes nothing. */
  lemma DeleteIdempotent(store: Store, id: Int32)
    ensures Delete(Delete(store, id), id) == Delete(store, id)
    ensures Decimal.IntText(id) !in store ==> Delete(store, id) == store
  {
  }

  /** Two different ids never remove the same row. */
  lemma DeleteDistinctIds(store: Store, a: Int32, b: Int32)
    requires a != b
    requires Decimal.IntText(a) in store
    ensures Decimal.IntText(a) in Delete(store, b)
  {
    if Decimal.IntText(a) == Decimal.IntText(b) {
      Decimal.IntTextInjective(a, b);
    }
  }

  lemma InsertPreserves(store: Store, user: UserInfo, newId: Id)
    requires newId !in store
    requires WellFormed(store)
    requires UniqueLogins(store) && !LoginTaken(store, user.login)
    ensures WellFormed(Insert(store, user, newId)) && UniqueLogins(Insert(store, user, newId))
  {
  }

  lemma PutPreserves(store: Store, user: UserInfo, k: Id)
    requires k in store && user.id == Some(k) && user.login == store[k].login
    requires WellFormed(store) && UniqueLogins(store)
    ensures WellFormed(Put(store, user)) && UniqueLogins(Put(store, user))
  {
  }

  lemma DeletePreserves(store: Store, id: Int32)
    requires WellFormed(store) && UniqueLogins(store)
    ensures WellFormed(Delete(store, id)) && UniqueLogins(Delete(store, id))
  {
  }
}
