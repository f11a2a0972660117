/**
 * The in-memory user directory: a map from username to a user record holding the
 * password and an optional session token.
 *
 * The operations that take the database mutably (`add`, `auth`, `logout`, `del`) are
 * methods with `modifies db`; the ones that only read it (`list`, `get_token`) take the
 * map itself. Each mutating operation is specified by a relation between the map before,
 * the map after and the reply (`AddSpec`, `AuthSpec`, ...); the lemmas at the end relate
 * several operations through those relations. The order in which a hash map visits its
 * entries is unspecified, so `list` and `find_user_by_token` are specified by what every
 * visiting order gives.
 */
module Directory {
  import opened Wrappers
  import opened Tokens

  datatype User = User(password: string, token: Option<string>)

  type Users = map<string, User>

  /** The database object shared by the console and the connection handlers. */
  class UserDatabase {
    var users: Users

    /** `UserDatabase::new`: an empty directory. */
    constructor ()
      ensures users == map[]
    {
      users := map[];
    }

    /**
     * `find_user_by_token`: visits the entries in some order and returns the first
     * username whose token is `token`.
     */
    method FindUserByToken(token: string) returns (r: Option<string>)
      ensures FindSpec(users, token, r)
    {
      var unvisited := users.Keys;
      while unvisited != {}
        invariant unvisited <= users.Keys
        invariant forall n :: n in users && n !in unvisited ==> !Holds(users, n, token)
        decreases unvisited
      {
        var name :| name in unvisited;
        if users[name].token == Some(token) {
          return Some(name);
        }
        unvisited := unvisited - {name};
      }
      return None;
    }
  }

  // ---------------------------------------------------------------------------
  // Vocabulary of the specifications

  /** User `name` exists and currently holds session token `t`. */
  predicate Holds(users: Users, name: string, t: string) {
    name in users && users[name].token == Some(t)
  }

  /** No two users hold the same token (the directory's intended invariant). */
  ghost predicate TokensUnique(users: Users) {
    forall a, b, t :: Holds(users, a, t) && Holds(users, b, t) ==> a == b
  }

  /** Every user other than `name` is unchanged (present with the same record, or absent). */
  ghost predicate OthersUnchanged(before: Users, after: Users, name: string) {
    after - {name} == before - {name}
  }

  /** The record of `name` with its token removed. */
  function ClearToken(users: Users, name: string): Users
    requires name in users
  {
    users[name := users[name].(token := None)]
  }

  function AddedMessage(name: string): string {
    "Пользователь '" + name + "' добавлен."
  }

  function LoggedOutMessage(name: string): string {
    "Пользователь '" + name + "' разлогинен."
  }

  function DeletedMessage(name: string): string {
    "Пользователь '" + name + "' удален."
  }

  // ---------------------------------------------------------------------------
  // Specifications of the operations

  /** `list`: nothing for an empty directory, otherwise every username exactly once. */
  ghost predicate ListSpec(users: Users, r: Option<seq<string>>) {
    && (r.None? <==> |users| == 0)
    && (r.Some? ==>
          && (forall n :: n in r.value <==> n in users)
          && (forall i, j :: 0 <= i < j < |r.value| ==> r.value[i] != r.value[j]))
  }

  /** `find_user_by_token`: some holder of `token`, or nothing when nobody holds it. */
  ghost predicate FindSpec(users: Users, token: string, r: Option<string>) {
    && (r.Some? ==> Holds(users, r.value, token))
    && (r.None? ==> forall n :: !Holds(users, n, token))
  }

  /**
   * `add`: refused, changing nothing, when `name` already exists with this very password;
   * otherwise `name` gets a fresh record with this password and no token (replacing any
   * previous record) and every other user is unchanged.
   */
  ghost predicate AddSpec(before: Users, after: Users, name: string, password: string, r: Option<string>) {
    if name in before && before[name].password == password then
      r == None && after == before
    else
      && r == Some(AddedMessage(name))
      && name in after && after[name] == User(password, None)
      && OthersUnchanged(before, after, name)
  }

  /**
   * `auth`: succeeds exactly when `name` exists with this password; then the token
   * generated from `draws` becomes the user's token, and the password and every other
   * user are unchanged. On failure nothing changes.
   */
  ghost predicate AuthSpec(before: Users, after: Users, name: string, password: string, draws: Draws, r: Option<string>) {
    if name in before && before[name].password == password then
      && r == Some(GenerateToken(draws))
      && name in after && after[name] == User(before[name].password, r)
      && OthersUnchanged(before, after, name)
    else
      r == None && after == before
  }

  /**
   * `logout`: `id` is first read as a token: if some user holds it, that user's token is
   * cleared. Otherwise, if `id` is a username, that user's token is cleared. Otherwise
   * the call fails and nothing changes. Exactly one user changes on success.
   */
  ghost predicate LogoutSpec(before: Users, after: Users, id: string, r: Option<string>) {
    if exists n :: Holds(before, n, id) then
      exists n :: Holds(before, n, id) && after == ClearToken(before, n) && r == Some(LoggedOutMessage(n))
    else if id in before then
      after == ClearToken(before, id) && r == Some(LoggedOutMessage(id))
    else
      r == None && after == before
  }

  /** `del`: succeeds exactly when `name` was present; afterwards it is absent and nothing else changed. */
  ghost predicate DelSpec(before: Users, after: Users, name: string, r: Option<string>) {
    && (r.Some? <==> name in before)
    && (r.Some? ==> r.value == DeletedMessage(name))
    && after == before - {name}
  }

  // ---------------------------------------------------------------------------
  // The operations

  /** `list`: the usernames, collected in the map's visiting order. */
  method List(users: Users) returns (r: Option<seq<string>>)
    ensures ListSpec(users, r)
  {
    if |users| == 0 {
      return None;
    }
    var names: seq<string> := [];
    var unvisited := users.Keys;
    while unvisited != {}
      invariant unvisited <= users.Keys
      invariant forall n :: n in names <==> n in users && n !in unvisited
      invariant forall i, j :: 0 <= i < j < |names| ==> names[i] != names[j]
      decreases unvisited
    {
      var name :| name in unvisited;
      names := names + [name];
      unvisited := unvisited - {name};
    }
    return Some(names);
  }

  /** `add` */
  method Add(db: UserDatabase, username: string, password: string) returns (r: Option<string>)
    modifies db
    ensures AddSpec(old(db.users), db.users, username, password, r)
  {
    if username in db.users {
      if db.users[username].password == password {
        return None;
      }
    }
    db.users := db.users[username := User(password, None)];
    return Some(AddedMessage(username));
  }

  /** `auth`, with the 16 draws `generate_token` would take from the random generator. */
  method Auth(db: UserDatabase, username: string, password: string, draws: Draws) returns (r: Option<string>)
    modifies db
    ensures AuthSpec(old(db.users), db.users, username, password, draws, r)
  {
    if username in db.users {
      var user := db.users[username];
      if password == user.password {
        var token := GenerateToken(draws);
        db.users := db.users[username := user.(token := Some(token))];
        return Some(token);
      }
    }
    return None;
  }

  /** `logout`: by token first, then by username. */
  method Logout(db: UserDatabase, identifier: string) returns (r: Option<string>)
    modifies db
    ensures LogoutSpec(old(db.users), db.users, identifier, r)
  {
    var owner := db.FindUserByToken(identifier);
    if owner.Some? {
      var username := owner.value;
      db.users := ClearToken(db.users, username);
      return Some(LoggedOutMessage(username));
    }
    if identifier in db.users {
      db.users := ClearToken(db.users, identifier);
      return Some(LoggedOutMessage(identifier));
    }
    return None;
  }

  /** `del` */
  method Del(db: UserDatabase, username: string) returns (r: Option<string>)
    modifies db
    ensures DelSpec(old(db.users), db.users, username, r)
  {
    if username in db.users {
      db.users := db.users - {username};
      return Some(DeletedMessage(username));
    }
    return None;
  }

  /** `get_token`: the stored token of `username`, if the user exists and holds one. */
  function GetToken(users: Users, username: string): (r: Option<string>)
    ensures r.Some? ==> Holds(users, username, r.value)
    ensures r.None? ==> forall t :: !Holds(users, username, t)
  {
    if username in users && users[username].token.Some? then users[username].token else None
  }

  // ---------------------------------------------------------------------------
  // Properties relating several operations

  /** Adding the same user with the same password twice: the second call is refused and changes nothing. */
  lemma AddTwiceIsNoOp(m0: Users, m1: Users, m2: Users, name: string, password: string, r1: Option<string>, r2: Option<string>)
    requires AddSpec(m0, m1, name, password, r1)
    requires AddSpec(m1, m2, name, password, r2)
    ensures r2 == None && m2 == m1
  {
  }

  /** A token just issued by `auth`, held by no other user, resolves back to its user. */
  lemma AuthThenFind(before: Users, after: Users, name: string, password: string, draws: Draws, t: string, r: Option<string>)
    requires AuthSpec(before, after, name, password, draws, Some(t))
    requires forall n :: n != name ==> !Holds(before, n, t)
    requires FindSpec(after, t, r)
    ensures r == Some(name)
  {
    assert Holds(after, name, t);
    forall n | n != name ensures !Holds(after, n, t) {
      if Holds(after, n, t) {
        UnchangedHolder(before, after, name, n, t);
      }
    }
  }

  /** `add` keeps tokens unique: the new record has no token. */
  lemma AddKeepsTokensUnique(before: Users, after: Users, name: string, password: string, r: Option<string>)
    requires TokensUnique(before)
    requires AddSpec(before, after, name, password, r)
    ensures TokensUnique(after)
  {
    forall a, b, t | Holds(after, a, t) && Holds(after, b, t) ensures a == b {
      if a != name {
        UnchangedHolder(before, after, name, a, t);
      }
      if b != name {
        UnchangedHolder(before, after, name, b, t);
      }
    }
  }

  /** `auth` keeps tokens unique when the generated token is not already held by another user. */
  lemma AuthKeepsTokensUnique(before: Users, after: Users, name: string, password: string, draws: Draws, r: Option<string>)
    requires TokensUnique(before)
    requires forall n :: n != name ==> !Holds(before, n, GenerateToken(draws))
    requires AuthSpec(before, after, name, password, draws, r)
    ensures TokensUnique(after)
  {
    forall a, b, t | Holds(after, a, t) && Holds(after, b, t) ensures a == b {
      if a != name {
        UnchangedHolder(before, after, name, a, t);
      }
      if b != name {
        UnchangedHolder(before, after, name, b, t);
      }
    }
  }

  /** `logout` keeps tokens unique: it only ever removes a token. */
  lemma LogoutKeepsTokensUnique(before: Users, after: Users, id: string, r: Option<string>)
    requires TokensUnique(before)
    requires LogoutSpec(before, after, id, r)
    ensures TokensUnique(after)
  {
    var cleared :| after == before || (cleared in before && after == ClearToken(before, cleared));
    forall a, b, t | Holds(after, a, t) && Holds(after, b, t) ensures a == b {
      assert Holds(before, a, t) && Holds(before, b, t);
    }
  }

  /** `del` keeps tokens unique: it only removes a record. */
  lemma DelKeepsTokensUnique(before: Users, after: Users, name: string, r: Option<string>)
    requires TokensUnique(before)
    requires DelSpec(before, after, name, r)
    ensures TokensUnique(after)
  {
    forall a, b, t | Holds(after, a, t) && Holds(after, b, t) ensures a == b {
      assert Holds(before, a, t) && Holds(before, b, t);
    }
  }

  /**
   * Server-side revocation: logging out with a token that a user holds succeeds, names
   * that user, and afterwards nobody holds the token, so it no longer resolves.
   */
  lemma LogoutByTokenRevokes(before: Users, after: Users, name: string, t: string, r: Option<string>)
    requires TokensUnique(before)
    requires Holds(before, name, t)
    requires LogoutSpec(before, after, t, r)
    ensures r == Some(LoggedOutMessage(name))
    ensures forall n :: !Holds(after, n, t)
  {
    var n :| Holds(before, n, t) && after == ClearToken(before, n) && r == Some(LoggedOutMessage(n));
    assert n == name;
    assert forall m :: m != name && Holds(after, m, t) ==> Holds(before, m, t);
  }

  /**
   * Deleting a user revokes the user's session: `get_token` finds nothing for it, and a
   * token it held is held by nobody afterwards.
   */
  lemma DelRevokes(before: Users, after: Users, name: string, t: string, r: Option<string>)
    requires TokensUnique(before)
    requires Holds(before, name, t)
    requires DelSpec(before, after, name, r)
    ensures r.Some? && GetToken(after, name) == None
    ensures forall n :: !Holds(after, n, t)
  {
    assert forall m :: Holds(after, m, t) ==> Holds(before, m, t);
  }

  /** After `del`, `get_token` finds nothing for the deleted name, whether or not it held a token. */
  lemma DelThenGetToken(before: Users, after: Users, name: string, r: Option<string>)
    requires DelSpec(before, after, name, r)
    ensures GetToken(after, name) == None
  {
  }

  /** A user other than `name` holds `t` after an operation that left every other user unchanged only if it held `t` before. */
  lemma UnchangedHolder(before: Users, after: Users, name: string, n: string, t: string)
    requires OthersUnchanged(before, after, name)
    requires n != name && Holds(after, n, t)
    ensures Holds(before, n, t)
  {
    assert n in after - {name};
  }
}
