# User directory and auth protocol of the session server

This project models the in-memory user directory of the session server and the request
handling on top of it, all of which lives in `src/main.rs`.

- `tokens.dfy` (module `Tokens`): `generate_token`, which builds a 16-character token from
  the alphabet `A-Z a-z 0-9`. The random generator is not modelled. Its 16 draws are a
  parameter (`Draws`), each one a position in the 62-character alphabet.
- `directory.dfy` (module `Directory`): the `User` record, the `UserDatabase` object
  holding the map from username to user, and the operations `list`, `add`, `auth`,
  `logout`, `del`, `get_token` and `find_user_by_token`.
  - The operations that take the database as `&mut` (`add`, `auth`, `logout`, `del`) are
    methods with `modifies db`.
  - The ones that take it as `&` (`list`, `get_token`) take the map itself.
  - `find_user_by_token` stays a method of the class, as in the source.
  - Each mutating operation is specified by a relation between the map before, the map
    after and the reply (`AddSpec`, `AuthSpec`, `LogoutSpec`, `DelSpec`).
  - A hash map visits its entries in an unspecified order. So `list` and
    `find_user_by_token` are loops that visit the keys in an arbitrary order, and
    `ListSpec` and `FindSpec` state what every order gives.
- `protocol.dfy` (module `Protocol`): the decoded `Message` (a command tag and an optional
  JSON payload), `auth_user`, and the command dispatch of `handle_client`.
- `wrappers.dfy` (module `Wrappers`): Rust's `Option`, and a `Result` for validation errors.

The directory's intended invariant is that no two users hold the same token
(`TokensUnique`). The code never checks this: it relies on 62^16 possible tokens. So the
lemmas show that every operation keeps the invariant, and `auth` keeps it when the newly
generated token is held by nobody else. `GenerateTokenInjective` and `GenerateTokenCovers`
show that the generator's outcomes are exactly the 16-character alphanumeric strings, one
outcome per sequence of draws.

Behaviour of the code worth knowing:
- `add` with an existing username and a different password overwrites the record: the
  new password, and no token (`AddSpec`).
- A well-formed `auth` request for a username that is not in the directory gets `"err"`
  with "Invalid username or password." and changes nothing (`AuthUserUnknownUser`).
- Only `auth_user` returns an existing token, and it does so before checking the
  password, so any password works for a logged-in user
  (`AuthUserSkipsPasswordWhenLoggedIn`, `AuthUserIdempotent`). A direct `auth`, as the
  console issues it, always stores a newly generated token (`AuthSpec`).
- A `message` command is echoed back to its sender with its payload, and its token is
  not read (`Dispatch`).

## Model

| member | source | states |
|---|---|---|
| `Directory.UserDatabase.constructor` | src/main.rs:32-36 | a new database holds no users |
| `Directory.UserDatabase.FindUserByToken` | src/main.rs:38-42 | returns a user that holds the token, or nothing exactly when no user holds it; the directory is not modified |
| `Directory.List` | src/main.rs:45-51 | nothing exactly when the directory is empty; otherwise every username exactly once and nothing else |
| `Directory.Add` | src/main.rs:53-68 | refused, changing nothing, iff the user exists with the same password; otherwise the user maps to that password with no token (an existing record is overwritten), every other user is unchanged, and the reply is the "added" message |
| `Directory.AddTwiceIsNoOp` | src/main.rs:53-60 | a second `add` of the same username and password is refused and leaves the directory as the first left it |
| `Tokens.GenerateToken` | src/main.rs:70-76 | the token has 16 characters, each one in A-Z, a-z or 0-9 |
| `Tokens.GenerateTokenInjective` | src/main.rs:70-76 | different draws of the generator give different tokens |
| `Tokens.GenerateTokenCovers` | src/main.rs:70-76 | every 16-character alphanumeric string is the token of some draws |
| `Directory.Auth` | src/main.rs:78-87 | succeeds iff the user exists and the password matches; then the returned token is the generated one and becomes the user's token, while the password and all other users stay unchanged; on failure it returns nothing and the directory is unchanged |
| `Directory.AuthThenFind` | src/main.rs:78-87 | a token that `auth` has just issued, and that no other user holds, is found by `find_user_by_token` and resolves to the authenticated user |
| `Directory.Logout` | src/main.rs:89-103 | if some user holds `id` as a token, exactly that user's token is cleared; else if `id` is a username, that user's token is cleared; otherwise it returns nothing and nothing changes; no other user changes |
| `Directory.LogoutByTokenRevokes` | src/main.rs:89-94 | with unique tokens, logging out by a held token names its holder, and afterwards nobody holds that token |
| `Directory.Del` | src/main.rs:105-111 | succeeds iff the user was present; afterwards the user is absent and every other user is unchanged |
| `Directory.DelRevokes` | src/main.rs:105-111 | after deleting a logged-in user, `get_token` finds nothing for it and nobody holds its token |
| `Directory.DelThenGetToken` | src/main.rs:105-120 | after `del` of any name, `get_token` finds nothing for that name |
| `Directory.GetToken` | src/main.rs:113-120 | returns a token only if the user exists and holds that token; returns nothing when the user is missing or has no token |
| `Directory.AddKeepsTokensUnique` | src/main.rs:62-66 | `add` keeps every token held by at most one user |
| `Directory.AuthKeepsTokensUnique` | src/main.rs:79-83 | `auth` keeps tokens unique when the new token is not held by another user |
| `Directory.LogoutKeepsTokensUnique` | src/main.rs:89-103 | `logout` keeps tokens unique |
| `Directory.DelKeepsTokensUnique` | src/main.rs:105-111 | `del` keeps tokens unique |
| `Protocol.ParseAuthRequest` | src/main.rs:123-145 | accepts iff `data` is an object with string `username` and `password` and returns those two strings; otherwise gives the first failing check's error text: not an object, then username, then password |
| `Protocol.ParseAuthRequestRoundTrip` | src/main.rs:131-145 | any object carrying string credentials, whatever its other fields, validates to exactly those credentials |
| `Protocol.AuthUser` | src/main.rs:122-167 | a malformed payload gets `"err"` with its reason and leaves the directory unchanged; a user already holding a token gets `"ok"` with it, without a password check and without any change; otherwise the reply is `"ok"` with the new token or `"err"` "Invalid username or password.", exactly as `auth` succeeds or fails |
| `Protocol.AuthUserOk` | src/main.rs:147-166 | an `"ok"` reply means the payload was well-formed and its user holds the returned token afterwards |
| `Protocol.AuthUserIdempotent` | src/main.rs:147-153 | after an `"ok"` reply, the same request again gets the same token and changes nothing |
| `Protocol.AuthUserUnknownUser` | src/main.rs:156-166 | a well-formed request for a username that is not in the directory gets `"err"` "Invalid username or password." and changes nothing |
| `Protocol.AuthUserSkipsPasswordWhenLoggedIn` | src/main.rs:147-153 | a well-formed request naming a user who holds a token, with a password that does not match, gets `"ok"` with that stored token and changes nothing |
| `Protocol.AuthUserTokenResolves` | src/main.rs:147-166 | with unique tokens, and a generated token (when one is generated) held by no other user, the token of an `"ok"` reply resolves back to the requesting username |
| `Protocol.AuthUserKeepsTokensUnique` | src/main.rs:147-166 | `auth_user` keeps tokens unique when a token it generates is held by no other user |
| `Protocol.Dispatch` | src/main.rs:268-278 | `auth` goes to `auth_user`; `message` is answered with the same command and payload and changes nothing; any other command is answered with command `error` and message "Unknown command" and changes nothing |

## Left out

- The accept loop, its 2-second `timeout`, `tokio::spawn`, `thread::spawn` and the `is_finished` shutdown check (src/main.rs:295-321): they only concern concurrency and the process lifetime.
- The `Arc<Mutex<...>>` locking. Every operation runs as one sequential step, including `auth_user`, whose lock is released between `get_token` and `auth` in the source. An interleaving in that window is not modelled.
- The socket reads and writes of `handle_client`, its 1024-byte buffer, and the loop around them (src/main.rs:243-266, 280-291): this is network I/O. Only the dispatch on the decoded command is modelled.
- JSON decoding and encoding by serde_json. Only the decoded shape is modelled: strings, objects, and every other JSON value as one opaque `Other`.
- The randomness of `thread_rng`. The 16 draws are a parameter. The rejection sampling that maps a raw 32-bit draw onto the 62-character alphabet is inside the `rand` crate, which is not part of this model.
- The operator console `database_manage` (src/main.rs:183-241): it reads stdin and prints text, and each of its commands is a single call of the directory operations modelled here.
- The commented-out `message_handler` (src/main.rs:169-181): it is dead code.
- The Rust `String`s returned as confirmations are modelled as strings built from the same text. Formatting for the console is not modelled.
- Uniqueness of a newly generated token is not checked by the source. The lemmas that need it take it as a hypothesis.
