/**
 * The request protocol on top of the directory: a decoded message is a command tag and
 * an optional JSON payload. `auth_user` validates the payload of an `auth` request and
 * then logs the user in; the dispatch of `handle_client` picks the reply by command.
 * Decoding and encoding of the bytes on the wire are not modelled: only the decoded
 * shape is.
 */
module Protocol {
  import opened Wrappers
  import opened Tokens
  import opened Directory

  /** The JSON values that matter here: strings, objects, and everything else. */
  datatype Value = Str(s: string) | Object(fields: map<string, Value>) | Other

  datatype Message = Message(command: string, data: Option<Value>)

  datatype Credentials = Credentials(username: string, password: string)

  const NotObjectError: string := "Expected JSON object in 'data' field."
  const UsernameError: string := "Field 'username' is missing or has the wrong type."
  const PasswordError: string := "The 'password' field is missing or has the wrong type."
  const InvalidCredentialsError: string := "Invalid username or password."
  const UnknownCommandError: string := "Unknown command"

  /** The reply to an `auth` request: `{"status": status, "message": text}`. */
  function AuthReply(status: string, text: string): Message {
    Message("auth", Some(Object(map["status" := Str(status), "message" := Str(text)])))
  }

  /** The reply to a command that is neither `auth` nor `message`. */
  function UnknownCommandReply(): Message {
    Message("error", Some(Object(map["message" := Str(UnknownCommandError)])))
  }

  /** Field lookup in a JSON object. */
  function Get(fields: map<string, Value>, key: string): Option<Value> {
    if key in fields then Some(fields[key]) else None
  }

  /** `fields` has a string under `key`. */
  predicate HasString(fields: map<string, Value>, key: string) {
    key in fields && fields[key].Str?
  }

  /**
   * The validation at the head of `auth_user`: `data` must be an object, then
   * `username` a string in it, then `password` a string in it; the first check that
   * fails gives the error.
   */
  function ParseAuthRequest(data: Option<Value>): (r: Result<Credentials>)
    ensures r.Ok? <==>
              data.Some? && data.value.Object?
              && HasString(data.value.fields, "username") && HasString(data.value.fields, "password")
    ensures r.Ok? ==>
              r.value.username == data.value.fields["username"].s
              && r.value.password == data.value.fields["password"].s
    ensures !(data.Some? && data.value.Object?) ==> r == Err(NotObjectError)
    ensures data.Some? && data.value.Object? && !HasString(data.value.fields, "username") ==>
              r == Err(UsernameError)
    ensures data.Some? && data.value.Object? && HasString(data.value.fields, "username")
              && !HasString(data.value.fields, "password") ==>
              r == Err(PasswordError)
  {
    match data
    case Some(Object(fields)) =>
      (match Get(fields, "username")
       case Some(Str(username)) =>
         (match Get(fields, "password")
          case Some(Str(password)) => Ok(Credentials(username, password))
          case _ => Err(PasswordError))
       case _ => Err(UsernameError))
    case _ => Err(NotObjectError)
  }

  /** A well-formed `auth` payload: the credentials, and any further fields. */
  function AuthRequest(c: Credentials, extra: map<string, Value>): Value {
    Object(extra["username" := Str(c.username)]["password" := Str(c.password)])
  }

  /** Validation reads back exactly the credentials a client sent, whatever else the object holds. */
  lemma ParseAuthRequestRoundTrip(c: Credentials, extra: map<string, Value>)
    ensures ParseAuthRequest(Some(AuthRequest(c, extra))) == Ok(c)
  {
  }

  /**
   * `auth_user`: a malformed payload is refused and changes nothing; a user who already
   * holds a token gets that token back without a password check; otherwise the reply
   * follows `auth`.
   */
  ghost predicate AuthUserSpec(before: Users, after: Users, msg: Message, draws: Draws, resp: Message) {
    match ParseAuthRequest(msg.data)
    case Err(e) => resp == AuthReply("err", e) && after == before
    case Ok(c) =>
      if GetToken(before, c.username).Some? then
        resp == AuthReply("ok", GetToken(before, c.username).value) && after == before
      else
        exists r ::
          && AuthSpec(before, after, c.username, c.password, draws, r)
          && resp == (if r.Some? then AuthReply("ok", r.value) else AuthReply("err", InvalidCredentialsError))
  }

  /** `auth_user`, as one sequential step on the database. */
  method AuthUser(db: UserDatabase, msg: Message, draws: Draws) returns (resp: Message)
    modifies db
    ensures AuthUserSpec(old(db.users), db.users, msg, draws, resp)
  {
    var request := ParseAuthRequest(msg.data);
    if request.Err? {
      return AuthReply("err", request.error);
    }
    var c := request.value;
    var existing := GetToken(db.users, c.username);
    if existing.Some? {
      return AuthReply("ok", existing.value);
    }
    var r := Auth(db, c.username, c.password, draws);
    match r
    case Some(token) => resp := AuthReply("ok", token);
    case None => resp := AuthReply("err", InvalidCredentialsError);
  }

  /**
   * The dispatch of `handle_client`: `auth` goes to `auth_user`, `message` is echoed
   * back with its payload, and any other command gets the unknown-command error. Only
   * `auth` can change the directory.
   */
  method Dispatch(db: UserDatabase, msg: Message, draws: Draws) returns (resp: Message)
    modifies db
    ensures msg.command == "auth" ==> AuthUserSpec(old(db.users), db.users, msg, draws, resp)
    ensures msg.command == "message" ==> resp == Message("message", msg.data) && db.users == old(db.users)
    ensures msg.command != "auth" && msg.command != "message" ==>
              resp == UnknownCommandReply() && db.users == old(db.users)
  {
    match msg.command
    case "auth" => resp := AuthUser(db, msg, draws);
    case "message" => resp := Message("message", msg.data);
    case _ => resp := UnknownCommandReply();
  }

  /** Two `auth` replies are equal only when their status and text are. */
  lemma AuthReplyInjective(status1: string, text1: string, status2: string, text2: string)
    requires AuthReply(status1, text1) == AuthReply(status2, text2)
    ensures status1 == status2 && text1 == text2
  {
    assert AuthReply(status1, text1).data.value.fields["status"] == Str(status1);
    assert AuthReply(status2, text2).data.value.fields["status"] == Str(status2);
    assert AuthReply(status1, text1).data.value.fields["message"] == Str(text1);
    assert AuthReply(status2, text2).data.value.fields["message"] == Str(text2);
  }

  /**
   * What an "ok" reply from `auth_user` tells: the request was well-formed, and its user
   * holds the returned token afterwards, either because it already did (nothing changed)
   * or because `auth` just issued it.
   */
  lemma AuthUserOk(before: Users, after: Users, msg: Message, draws: Draws, t: string)
    requires AuthUserSpec(before, after, msg, draws, AuthReply("ok", t))
    ensures ParseAuthRequest(msg.data).Ok?
    ensures Holds(after, ParseAuthRequest(msg.data).value.username, t)
    ensures var c := ParseAuthRequest(msg.data).value;
            if GetToken(before, c.username).Some? then GetToken(before, c.username) == Some(t) && after == before
            else AuthSpec(before, after, c.username, c.password, draws, Some(t))
  {
    forall e | AuthReply("ok", t) == AuthReply("err", e) ensures false {
      AuthReplyInjective("ok", t, "err", e);
    }
    var c := ParseAuthRequest(msg.data).value;
    if GetToken(before, c.username).Some? {
      AuthReplyInjective("ok", t, "ok", GetToken(before, c.username).value);
    } else {
      var r :| AuthSpec(before, after, c.username, c.password, draws, r)
               && AuthReply("ok", t) == (if r.Some? then AuthReply("ok", r.value) else AuthReply("err", InvalidCredentialsError));
      AuthReplyInjective("ok", t, if r.Some? then "ok" else "err", if r.Some? then r.value else InvalidCredentialsError);
    }
  }

  /**
   * Logging in through the protocol is idempotent: once `auth_user` has answered "ok"
   * with a token, the same request answers with the same token and changes nothing.
   */
  lemma AuthUserIdempotent(m0: Users, m1: Users, m2: Users, msg: Message, d1: Draws, d2: Draws, t: string, resp: Message)
    requires AuthUserSpec(m0, m1, msg, d1, AuthReply("ok", t))
    requires AuthUserSpec(m1, m2, msg, d2, resp)
    ensures resp == AuthReply("ok", t) && m2 == m1
  {
    AuthUserOk(m0, m1, msg, d1, t);
  }

  /**
   * A well-formed request for a username that was never added is answered "err" with
   * the invalid-credentials text, and nothing changes.
   */
  lemma AuthUserUnknownUser(before: Users, after: Users, c: Credentials, extra: map<string, Value>, draws: Draws, resp: Message)
    requires c.username !in before
    requires AuthUserSpec(before, after, Message("auth", Some(AuthRequest(c, extra))), draws, resp)
    ensures resp == AuthReply("err", InvalidCredentialsError) && after == before
  {
  }

  /**
   * A logged-in user's token is handed out for ANY password: the existing-token check
   * comes before the password is compared, so a request naming the user with a wrong
   * password gets the stored token, and nothing changes.
   */
  lemma AuthUserSkipsPasswordWhenLoggedIn(before: Users, after: Users, u: string, p: string, tok: string,
                                          extra: map<string, Value>, draws: Draws, resp: Message)
    requires Holds(before, u, tok) && before[u].password != p
    requires AuthUserSpec(before, after, Message("auth", Some(AuthRequest(Credentials(u, p), extra))), draws, resp)
    ensures resp == AuthReply("ok", tok) && after == before
  {
    ParseAuthRequestRoundTrip(Credentials(u, p), extra);
  }

  /**
   * The token `auth_user` would generate is held by no user other than the requesting
   * one. Only needed when the request is well-formed and its user holds no token yet,
   * the one case in which a token is generated.
   */
  ghost predicate GeneratedTokenFresh(before: Users, msg: Message, draws: Draws) {
    match ParseAuthRequest(msg.data)
    case Err(_) => true
    case Ok(c) =>
      GetToken(before, c.username).None? ==>
        forall n :: n != c.username ==> !Holds(before, n, GenerateToken(draws))
  }

  /**
   * The token `auth_user` hands out resolves back to the requesting user, provided tokens
   * were unique and a freshly generated token collides with no other user's.
   */
  lemma AuthUserTokenResolves(before: Users, after: Users, msg: Message, draws: Draws, t: string, r: Option<string>)
    requires TokensUnique(before)
    requires GeneratedTokenFresh(before, msg, draws)
    requires AuthUserSpec(before, after, msg, draws, AuthReply("ok", t))
    requires FindSpec(after, t, r)
    ensures ParseAuthRequest(msg.data).Ok? && r == Some(ParseAuthRequest(msg.data).value.username)
  {
    AuthUserOk(before, after, msg, draws, t);
    var c := ParseAuthRequest(msg.data).value;
    if GetToken(before, c.username).None? {
      AuthThenFind(before, after, c.username, c.password, draws, t, r);
    }
  }

  /** `auth_user` keeps tokens unique when a token it generates is held by no other user. */
  lemma AuthUserKeepsTokensUnique(before: Users, after: Users, msg: Message, draws: Draws, resp: Message)
    requires TokensUnique(before)
    requires GeneratedTokenFresh(before, msg, draws)
    requires AuthUserSpec(before, after, msg, draws, resp)
    ensures TokensUnique(after)
  {
    match ParseAuthRequest(msg.data)
    case Err(_) =>
    case Ok(c) =>
      if GetToken(before, c.username).None? {
        var r :| AuthSpec(before, after, c.username, c.password, draws, r)
                 && resp == (if r.Some? then AuthReply("ok", r.value) else AuthReply("err", InvalidCredentialsError));
        AuthKeepsTokensUnique(before, after, c.username, c.password, draws, r);
      }
  }
}
