/** The authentication routes: issuing access-token claims, registering an
    account, the password login that returns a bearer token, and resolving
    the account a token names. Signing, decoding and password hashing are
    parameters: `encode` turns claims into a token, `decode` checks a
    token's signature and returns its claims, `hash` and `verify` are the
    password hash and its check. Times are whole seconds since the epoch. */
module Auth {
  import opened Common
  import opened JsonValue
  import opened Store

  /** The claim set of a token: the JSON object it carries. */
  type Payload = map<string, Json>

  /** Lifetime, in seconds, of a token issued without a usable delta. */
  const DefaultLifetime := 15 * 60

  /** Lifetime, in seconds, of a token issued by the login route. */
  const AccessTokenLifetime := 30 * 60

  /** What the login route returns. */
  datatype Token = Token(accessToken: string, tokenType: string)

  /** `create_access_token` before signing: a copy of `data` with `exp` set to
      `now + delta`, or `now + 15 minutes` when the delta is absent or a zero
      duration (which is falsy); every other claim is kept as given. */
  function TokenClaims(data: Payload, delta: Option<int>, now: int): (p: Payload)
    ensures p.Keys == data.Keys + {"exp"}
    ensures delta.Some? && delta.value != 0 ==> p["exp"] == Number(now + delta.value)
    ensures delta.None? || delta.value == 0 ==> p["exp"] == Number(now + DefaultLifetime)
    ensures forall k :: k in data && k != "exp" ==> p[k] == data[k]
  {
    var lifetime := if delta.Some? && delta.value != 0 then delta.value else DefaultLifetime;
    data["exp" := Number(now + lifetime)]
  }

  /** `create_access_token`: the signed claims. */
  function CreateAccessToken(data: Payload, delta: Option<int>, now: int, encode: Payload -> string): (t: string)
    ensures t == encode(TokenClaims(data, delta, now))
  {
    encode(TokenClaims(data, delta, now))
  }

  /** With a decoder that inverts the encoder, an issued token decodes to the
      given claims plus `exp`: `now + delta`, or `now + 15 minutes` without a
      usable delta. */
  lemma CreatedTokenDecodes(
    data: Payload, delta: Option<int>, now: int, encode: Payload -> string, decode: string -> Option<Payload>)
    requires forall p :: decode(encode(p)) == Some(p)
    ensures var r := decode(CreateAccessToken(data, delta, now, encode));
      && r.Some? && r.value.Keys == data.Keys + {"exp"}
      && (forall k :: k in data && k != "exp" ==> r.value[k] == data[k])
      && r.value["exp"] == Number(now + if delta.Some? && delta.value != 0 then delta.value else DefaultLifetime)
  {
    var p := TokenClaims(data, delta, now);
    assert decode(encode(p)) == Some(p);
  }

  /** The claim checks a token passes after its signature is verified: an
      `exp` claim, when present, must be an integer no earlier than `now`;
      a `sub` claim, when present, must be a string. The result is the
      subject, and none when a check fails or `sub` is absent. */
  function Subject(p: Payload, now: int): (r: Option<string>)
    ensures r.Some? <==>
      ("sub" in p && p["sub"].Str?
       && ("exp" in p ==> p["exp"].Number? && p["exp"].n >= now))
    ensures r.Some? ==> r.value == p["sub"].s
  {
    if "exp" in p && (!p["exp"].Number? || p["exp"].n < now) then None
    else if "sub" in p && p["sub"].Str? then Some(p["sub"].s)
    else None
  }

  /** `db.query(User).filter(User.username == name).first()`. */
  function UserByName(us: seq<User>, name: string): (r: Option<User>)
    ensures r.Some? ==> r.value in us && r.value.username == name
    ensures r.None? <==> forall u :: u in us ==> u.username != name
  {
    if |us| == 0 then None
    else if us[0].username == name then Some(us[0])
    else UserByName(us[1..], name)
  }

  /** A user that already holds this email or this username. */
  predicate Taken(us: seq<User>, username: string, email: string) {
    exists u :: u in us && (u.email == email || u.username == username)
  }

  /** `register_user`: none when the email or the username is taken;
      otherwise the new active account with role `user`, the given username
      and email, the hash in place of the password, and a fresh id. */
  function Registration(us: seq<User>, username: string, email: string, passwordHash: string): (r: Option<User>)
    ensures r.None? <==> Taken(us, username, email)
    ensures r.Some? ==>
      (r.value.username == username && r.value.email == email && r.value.passwordHash == passwordHash
       && r.value.isActive && r.value.role == "user")
    ensures r.Some? && IncreasingUserIds(us) ==> forall u :: u in us ==> u.id < r.value.id
  {
    if Taken(us, username, email) then None
    else
      var u := User(NextUserId(us), username, email, passwordHash, true, "user");
      assert IncreasingUserIds(us) ==> forall k :: 0 <= k < |us| ==> us[k].id < u.id by {
        if IncreasingUserIds(us) {
          forall k | 0 <= k < |us| ensures us[k].id < u.id {
            assert us[k].id <= us[|us| - 1].id;
          }
        }
      }
      Some(u)
  }

  /** A registration keeps the username and email columns unique and the
      ids increasing. */
  lemma RegistrationKeepsAccounts(us: seq<User>, username: string, email: string, passwordHash: string)
    requires DistinctAccounts(us) && IncreasingUserIds(us)
    requires Registration(us, username, email, passwordHash).Some?
    ensures var u := Registration(us, username, email, passwordHash).value;
      DistinctAccounts(us + [u]) && IncreasingUserIds(us + [u])
  {
    var u := Registration(us, username, email, passwordHash).value;
    var us' := us + [u];
    forall i, j | 0 <= i < j < |us'| ensures us'[i].username != us'[j].username && us'[i].email != us'[j].email {
      if j == |us| {
        assert us'[i] in us;
      }
    }
    assert u.id == NextUserId(us);
    UserIdFresh(us, u);
  }

  /** The route over the database: 400 and nothing stored when the email or
      the username is taken; otherwise the account is appended and returned. */
  method RegisterUser(db: Database, username: string, email: string, password: string, hash: string -> string)
    returns (o: Outcome<User>)
    requires db.Valid()
    modifies db
    ensures db.Valid()
    ensures Registration(old(db.users), username, email, hash(password)).None? ==>
      o == Failure(400) && db.users == old(db.users)
    ensures Registration(old(db.users), username, email, hash(password)).Some? ==>
      (o == Success(200, Registration(old(db.users), username, email, hash(password)).value)
       && db.users == old(db.users) + [o.value])
    ensures db.candidates == old(db.candidates) && db.questions == old(db.questions)
    ensures db.assessments == old(db.assessments)
  {
    var r := Registration(db.users, username, email, hash(password));
    if r.None? {
      return Failure(400);
    }
    RegistrationKeepsAccounts(db.users, username, email, hash(password));
    db.users := db.users + [r.value];
    o := Success(200, r.value);
  }

  /** `login_for_access_token`: 401 when no account has the username or the
      password does not verify against its hash; otherwise a bearer token
      whose claims are the username as `sub` and a 30-minute expiry. */
  function Login(
    us: seq<User>, username: string, password: string,
    verify: (string, string) -> bool, encode: Payload -> string, now: int): (o: Outcome<Token>)
    ensures o.Failure? <==>
      (UserByName(us, username).None? || !verify(password, UserByName(us, username).value.passwordHash))
    ensures o.Failure? ==> o.code == 401
    ensures o.Success? ==>
      (o.code == 200 && o.value.tokenType == "bearer"
       && o.value.accessToken == encode(TokenClaims(map["sub" := Str(username)], Some(AccessTokenLifetime), now)))
  {
    match UserByName(us, username)
    case None => Failure(401)
    case Some(u) =>
      if !verify(password, u.passwordHash) then Failure(401)
      else Success(200, Token(CreateAccessToken(map["sub" := Str(u.username)], Some(AccessTokenLifetime), now, encode), "bearer"))
  }

  /** `get_current_user`: 401 when the token does not decode, fails a claim
      check, has no subject, or names no account; otherwise the first
      account with that username. Whether the account is active is not
      consulted. */
  function CurrentUser(us: seq<User>, token: string, decode: string -> Option<Payload>, now: int): (o: Outcome<User>)
    ensures o.Failure? ==> o.code == 401
    ensures o.Success? <==>
      (decode(token).Some? && Subject(decode(token).value, now).Some?
       && UserByName(us, Subject(decode(token).value, now).value).Some?)
    ensures o.Success? ==>
      (o.code == 200 && o.value in us && o.value.username == Subject(decode(token).value, now).value)
  {
    match decode(token)
    case None => Failure(401)
    case Some(p) =>
      match Subject(p, now)
      case None => Failure(401)
      case Some(name) =>
        match UserByName(us, name)
        case None => Failure(401)
        case Some(u) => Success(200, u)
  }

  /** The claims a login at `now` signs for `username`. */
  lemma LoginClaims(username: string, now: int)
    ensures var p := TokenClaims(map["sub" := Str(username)], Some(AccessTokenLifetime), now);
      p == map["sub" := Str(username), "exp" := Number(now + AccessTokenLifetime)]
  {
    var p := TokenClaims(map["sub" := Str(username)], Some(AccessTokenLifetime), now);
    assert p.Keys == {"sub", "exp"};
  }

  /** With a decoder that inverts the encoder, a token issued by a login at
      `now` resolves, at any later time `now'`, to the account that logged
      in exactly while `now' <= now + 30 minutes`, and is refused with 401
      afterwards. */
  lemma LoginTokenLifetime(
    us: seq<User>, username: string, password: string,
    verify: (string, string) -> bool, encode: Payload -> string, decode: string -> Option<Payload>,
    now: int, now': int)
    requires forall p :: decode(encode(p)) == Some(p)
    requires Login(us, username, password, verify, encode, now).Success?
    ensures var t := Login(us, username, password, verify, encode, now).value.accessToken;
      && (CurrentUser(us, t, decode, now').Success? <==> now' <= now + AccessTokenLifetime)
      && (CurrentUser(us, t, decode, now').Success? ==>
            CurrentUser(us, t, decode, now').value == UserByName(us, username).value)
  {
    var t := Login(us, username, password, verify, encode, now).value.accessToken;
    var p := TokenClaims(map["sub" := Str(username)], Some(AccessTokenLifetime), now);
    LoginClaims(username, now);
    assert decode(t) == Some(p);
    assert now' <= now + AccessTokenLifetime ==> Subject(p, now') == Some(username);
  }

  /** Whoever registers can log in straight away with the same password,
      given a hash the verifier accepts for that password. */
  lemma RegisterThenLogin(
    us: seq<User>, username: string, email: string, password: string,
    hash: string -> string, verify: (string, string) -> bool, encode: Payload -> string, now: int)
    requires verify(password, hash(password))
    requires Registration(us, username, email, hash(password)).Some?
    ensures var u := Registration(us, username, email, hash(password)).value;
      && UserByName(us + [u], username) == Some(u)
      && Login(us + [u], username, password, verify, encode, now).Success?
  {
    var u := Registration(us, username, email, hash(password)).value;
    UserByNameAppend(us, u);
  }

  /** A username that no earlier account holds is found at the row appended
      with it. */
  lemma {:induction false} UserByNameAppend(us: seq<User>, u: User)
    requires forall v :: v in us ==> v.username != u.username
    ensures UserByName(us + [u], u.username) == Some(u)
  {
    if |us| > 0 {
      assert (us + [u])[0] == us[0];
      assert (us + [u])[1..] == us[1..] + [u];
      assert us[0] in us;
      forall v | v in us[1..] ensures v.username != u.username {
        assert v in us;
      }
      UserByNameAppend(us[1..], u);
    }
  }

  /** Once a registration succeeds, registering the same username again is
      refused, whatever email and password come with it. */
  lemma RegisterTwiceRefused(us: seq<User>, username: string, email: string, email': string, h: string, h': string)
    requires Registration(us, username, email, h).Some?
    ensures var u := Registration(us, username, email, h).value;
      Registration(us + [u], username, email', h').None?
  {
    var u := Registration(us, username, email, h).value;
    assert u in us + [u];
  }
}
