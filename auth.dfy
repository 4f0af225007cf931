/** The authentication layer of the command-line tool: the user registry kept
    in `users.json` (username to bcrypt hash), token issue and verification,
    and the login/register menu loop that runs before any scan. */
module Auth {
  import opened Wrappers
  import opened Text
  import opened Crypto

  /** Lifetime of a token in seconds. */
  const TokenExpiration: int := 3600

  /** The registry: username to password hash. */
  type Users = map<string, string>

  /** `generate_token(username)` at time `now`: a token signed over
      `{"user": username, "exp": now + 3600}`. */
  function GenerateToken(codec: TokenCodec, username: string, now: int): (token: string)
    ensures CodecSound(codec) ==> codec.decode(token) == Some(Claims(username, now + TokenExpiration))
    ensures CodecSound(codec) ==> token != ""
  {
    codec.encode(Claims(username, now + TokenExpiration))
  }

  /** `verify_token(token)` at time `now`: the user named in a correctly signed,
      unexpired token, and `None` for an expired or an invalid one. */
  function VerifyToken(codec: TokenCodec, token: string, now: int): (user: Option<string>)
    ensures user.Some? <==> codec.decode(token).Some? && now < codec.decode(token).value.exp
    ensures user.Some? ==> user.value == codec.decode(token).value.user
  {
    match Decode(codec, token, now)
    case Verified(c) => Some(c.user)
    case _ => None
  }

  /** A token issued at `issued` names its user exactly while `now < issued + 3600`. */
  lemma TokenRoundTrip(codec: TokenCodec, username: string, issued: int, now: int)
    requires CodecSound(codec)
    ensures VerifyToken(codec, GenerateToken(codec, username, issued), now)
         == if now < issued + TokenExpiration then Some(username) else None
  {
  }

  /** `username in users and verify_password(password, users[username])`. */
  predicate CredentialsValid(h: Hasher, users: Users, username: string, password: string)
  {
    username in users && h.check(password, users[username])
  }

  /** The login branch: a token for the user iff the user exists and the
      password verifies against the stored hash. */
  function Login(h: Hasher, codec: TokenCodec, users: Users, username: string, password: string, now: int)
    : (token: Option<string>)
    ensures token.Some? <==> CredentialsValid(h, users, username, password)
    ensures token.Some? && CodecSound(codec) ==>
              VerifyToken(codec, token.value, now) == Some(username)
  {
    if CredentialsValid(h, users, username, password) then Some(GenerateToken(codec, username, now)) else None
  }

  datatype Registration = Duplicate | Registered(users: Users)

  /** The register branch: an existing username is refused; otherwise the
      registry gains exactly `username -> hash(password)` and keeps every other entry. */
  function Register(h: Hasher, users: Users, username: string, password: string, salt: string)
    : (r: Registration)
    ensures r.Duplicate? <==> username in users
    ensures r.Registered? ==>
              && r.users.Keys == users.Keys + {username}
              && r.users[username] == h.hash(password, salt)
              && forall u :: u in users ==> r.users[u] == users[u]
  {
    if username in users then Duplicate else Registered(users[username := h.hash(password, salt)])
  }

  /** Whoever registers can then log in with the same password. */
  lemma RegisterThenLogin(h: Hasher, codec: TokenCodec, users: Users, username: string, password: string,
                          salt: string, now: int)
    requires HasherSound(h)
    requires username !in users
    ensures Register(h, users, username, password, salt).Registered?
    ensures Login(h, codec, Register(h, users, username, password, salt).users, username, password, now).Some?
  {
  }

  /** One answer to the menu: the option chosen and what was typed after it,
      with the time of a login and the salt of a registration. */
  datatype MenuInput =
    | LoginInput(username: string, password: string, now: int)
    | RegisterInput(username: string, password: string, salt: string)
    | ExitInput
    | OtherInput

  datatype SessionEnd = LoggedIn(token: string) | Exited | InputExhausted

  datatype Session = Session(end: SessionEnd, users: Users)

  /** `while not token`: the loop goes on while no token, or an empty one, was issued. */
  predicate Truthy(token: Option<string>)
  {
    token.Some? && token.value != ""
  }

  /** `next` keeps every entry of `users`, unchanged. */
  ghost predicate Extends(next: Users, users: Users)
  {
    users.Keys <= next.Keys && forall u :: u in users ==> next[u] == users[u]
  }

  /** The token is correctly signed and names a user of `users`. */
  ghost predicate TokenNamesUser(codec: TokenCodec, token: string, users: Users)
  {
    codec.decode(token).Some? && codec.decode(token).value.user in users
  }

  /** After one menu answer the loop either stops or goes on with a registry. */
  datatype MenuStep = Stop(end: SessionEnd) | Continue(users: Users)

  /** One pass of the loop body of `authenticate_user()`: the typed username
      and password are stripped; a login stops the loop with its token when
      one is issued; a duplicate username is refused without asking for the
      password; Exit stops. A pass never alters or removes a registered user;
      a login stops the loop exactly when the stripped credentials are valid,
      with the token issued to that user. */
  function Step(h: Hasher, codec: TokenCodec, users: Users, input: MenuInput): (s: MenuStep)
    ensures s.Continue? ==> Extends(s.users, users)
    ensures s.Continue? && s.users != users ==> input.RegisterInput?
    ensures s.Stop? ==> s.end != InputExhausted && (s.end == Exited <==> input.ExitInput?)
    ensures input.ExitInput? ==> s == Stop(Exited)
    ensures input.LoginInput? && CodecSound(codec) ==>
              (s.Stop? <==> CredentialsValid(h, users, Strip(input.username), Strip(input.password)))
    ensures s.Stop? && s.end.LoggedIn? ==>
              && input.LoginInput?
              && CredentialsValid(h, users, Strip(input.username), Strip(input.password))
              && s.end.token == GenerateToken(codec, Strip(input.username), input.now)
    ensures s.Stop? && s.end.LoggedIn? && CodecSound(codec) ==> TokenNamesUser(codec, s.end.token, users)
    ensures input.RegisterInput? ==>
              && s.Continue?
              && (Strip(input.username) in users ==> s.users == users)
              && (Strip(input.username) !in users ==>
                    s.users == users[Strip(input.username) := h.hash(Strip(input.password), input.salt)])
  {
    match input
    case LoginInput(u, p, now) =>
      var token := Login(h, codec, users, Strip(u), Strip(p), now);
      if Truthy(token) then Stop(LoggedIn(token.value)) else Continue(users)
    case RegisterInput(u, p, salt) =>
      (match Register(h, users, Strip(u), Strip(p), salt)
       case Duplicate => Continue(users)
       case Registered(next) => Continue(next))
    case ExitInput => Stop(Exited)
    case OtherInput => Continue(users)
  }

  /** What `authenticate_user()` does with a sequence of menu answers: the
      loop runs until a login issues a token or Exit is chosen, and the
      registry is saved after each registration. `InputExhausted` is the end
      of the answers. */
  function AuthSession(h: Hasher, codec: TokenCodec, users: Users, inputs: seq<MenuInput>): Session
    decreases |inputs|
  {
    if inputs == [] then Session(InputExhausted, users)
    else
      match Step(h, codec, users, inputs[0])
      case Stop(end) => Session(end, users)
      case Continue(next) => AuthSession(h, codec, next, inputs[1..])
  }

  /** The menu loop of `authenticate_user()`, mutating its copy of the registry. */
  method AuthenticateUser(h: Hasher, codec: TokenCodec, users0: Users, inputs: seq<MenuInput>)
    returns (end: SessionEnd, users: Users)
    ensures Session(end, users) == AuthSession(h, codec, users0, inputs)
  {
    users := users0;
    var token: Option<string> := None;
    var i := 0;
    while !Truthy(token) && i < |inputs|
      invariant 0 <= i <= |inputs|
      invariant !Truthy(token) ==> AuthSession(h, codec, users, inputs[i..]) == AuthSession(h, codec, users0, inputs)
      invariant Truthy(token) ==> AuthSession(h, codec, users0, inputs) == Session(LoggedIn(token.value), users)
    {
      match inputs[i] {
        case LoginInput(u, p, now) =>
          token := Login(h, codec, users, Strip(u), Strip(p), now);
        case RegisterInput(u, p, salt) =>
          var r := Register(h, users, Strip(u), Strip(p), salt);
          if r.Registered? {
            users := r.users;
          }
        case ExitInput =>
          return Exited, users;
        case OtherInput =>
      }
      i := i + 1;
    }
    end := if Truthy(token) then LoggedIn(token.value) else InputExhausted;
  }

  /** A session never alters or removes a registered user: the registry only grows. */
  lemma {:induction false} AuthSessionKeepsUsers(h: Hasher, codec: TokenCodec, users: Users, inputs: seq<MenuInput>)
    ensures Extends(AuthSession(h, codec, users, inputs).users, users)
    decreases |inputs|
  {
    if inputs != [] {
      match Step(h, codec, users, inputs[0])
      case Stop(_) =>
      case Continue(next) =>
        var last := AuthSession(h, codec, next, inputs[1..]).users;
        AuthSessionKeepsUsers(h, codec, next, inputs[1..]);
        assert forall v :: v in users ==> last[v] == next[v] == users[v];
    }
  }

  /** A session that ends logged in holds a correctly signed token naming a
      user of the final registry. */
  lemma {:induction false} AuthSessionTokenNamesUser(h: Hasher, codec: TokenCodec, users: Users, inputs: seq<MenuInput>)
    requires CodecSound(codec)
    requires AuthSession(h, codec, users, inputs).end.LoggedIn?
    ensures TokenNamesUser(codec, AuthSession(h, codec, users, inputs).end.token, AuthSession(h, codec, users, inputs).users)
    decreases |inputs|
  {
    match Step(h, codec, users, inputs[0])
    case Stop(_) =>
    case Continue(next) =>
      AuthSessionTokenNamesUser(h, codec, next, inputs[1..]);
  }

  /** Answering `a` and then `b` is answering `a`, and then `b` from the
      registry `a` left, unless an answer of `a` already ended the loop. */
  lemma {:induction false} AuthSessionAppend(h: Hasher, codec: TokenCodec, users: Users, a: seq<MenuInput>, b: seq<MenuInput>)
    ensures AuthSession(h, codec, users, a + b)
         == if AuthSession(h, codec, users, a).end == InputExhausted
            then AuthSession(h, codec, AuthSession(h, codec, users, a).users, b)
            else AuthSession(h, codec, users, a)
    decreases |a|
  {
    if a == [] {
      assert a + b == b;
    } else {
      assert (a + b)[0] == a[0];
      assert (a + b)[1..] == a[1..] + b;
      match Step(h, codec, users, a[0])
      case Stop(_) =>
      case Continue(next) =>
        AuthSessionAppend(h, codec, next, a[1..], b);
    }
  }

  /** When no earlier answer ended the loop, a login whose stripped
      credentials are valid in the registry built so far ends the session
      logged in, with the token issued to that user at that time. */
  lemma LoginEndsSession(h: Hasher, codec: TokenCodec, users: Users, a: seq<MenuInput>, login: MenuInput, b: seq<MenuInput>)
    requires CodecSound(codec)
    requires AuthSession(h, codec, users, a).end == InputExhausted
    requires login.LoginInput?
    requires CredentialsValid(h, AuthSession(h, codec, users, a).users, Strip(login.username), Strip(login.password))
    ensures AuthSession(h, codec, users, a + [login] + b)
         == Session(LoggedIn(GenerateToken(codec, Strip(login.username), login.now)), AuthSession(h, codec, users, a).users)
  {
    var reg := AuthSession(h, codec, users, a).users;
    AuthSessionAppend(h, codec, users, a, [login] + b);
    assert a + [login] + b == a + ([login] + b);
    assert ([login] + b)[0] == login;
  }

  /** When no earlier answer ended the loop, a registration goes on with the
      registry that holds the new user's hash, or with the same registry when
      the stripped username is taken. */
  lemma RegisterContinuesSession(h: Hasher, codec: TokenCodec, users: Users, a: seq<MenuInput>, reg: MenuInput, b: seq<MenuInput>)
    requires AuthSession(h, codec, users, a).end == InputExhausted
    requires reg.RegisterInput?
    ensures var before := AuthSession(h, codec, users, a).users;
            var name := Strip(reg.username);
            AuthSession(h, codec, users, a + [reg] + b)
              == AuthSession(h, codec, if name in before then before else before[name := h.hash(Strip(reg.password), reg.salt)], b)
  {
    AuthSessionAppend(h, codec, users, a, [reg] + b);
    assert a + [reg] + b == a + ([reg] + b);
    assert ([reg] + b)[0] == reg;
    assert ([reg] + b)[1..] == b;
  }
}
