/**
 * The authentication service (`AuthService`) as a state machine over the
 * user table and the refresh-token table.
 *
 * The outside operations it calls are parameters: `verify` stands for
 * BCrypt's password check, `hash` for BCrypt's hashing, `jwt` for writing a
 * signed access token for a user, `guid` for the fresh identifier a new
 * refresh token receives, and `now` for the UTC clock.
 */
module Auth {
  import opened Wrappers
  import opened Domain
  import opened Tokens

  /** A user account (`User`). */
  datatype User = User(
    id: int,
    firstName: Option<string>,
    lastName: Option<string>,
    email: Option<string>,
    username: Option<string>,
    passwordHash: Option<string>,
    isVerified: bool,
    phoneNumber: Option<string>,
    roles: Option<seq<string>>)

  /**
   * `AuthenticateResponse`: the status code and, on success, the profile
   * fields copied from the user, the access token and the refresh token.
   */
  datatype AuthResponse = AuthResponse(
    statusCode: int,
    profile: Option<User>,
    jwtToken: Option<string>,
    refreshToken: Option<string>)

  /** The user table, the refresh-token table, and the user table's identity counter. */
  datatype Accounts = Accounts(users: seq<User>, tokens: seq<RefreshToken>, nextUserId: int)

  /** A service call's response and the tables after it. */
  datatype AuthResult = AuthResult(response: AuthResponse, accounts: Accounts)

  /** The role a registered user receives. */
  const DefaultRole: string := "User"

  /** A bare status-code response. */
  function Status(code: int): AuthResponse {
    AuthResponse(code, None, None, None)
  }

  /** User ids are distinct and below the identity counter. */
  ghost predicate IdsWellFormed(a: Accounts) {
    && (forall i | 0 <= i < |a.users| :: a.users[i].id < a.nextUserId)
    && (forall i, j | 0 <= i < j < |a.users| :: a.users[i].id != a.users[j].id)
  }

  /** No two users share a username. */
  ghost predicate UniqueUsernames(users: seq<User>) {
    forall i, j | 0 <= i < j < |users| && users[i].username.Some? :: users[i].username != users[j].username
  }

  /** No two stored refresh tokens share a value. */
  ghost predicate UniqueTokens(tokens: seq<RefreshToken>) {
    forall i, j | 0 <= i < j < |tokens| :: tokens[i].token != tokens[j].token
  }

  /** `GetByUsernameAsync`: the first user with that username, or null. */
  function FindByUsername(users: seq<User>, name: string): (r: Option<nat>)
    ensures r.Some? <==> exists i | 0 <= i < |users| :: users[i].username == Some(name)
    ensures r.Some? ==> r.value < |users| && users[r.value].username == Some(name)
    ensures r.Some? ==> forall j | 0 <= j < r.value :: users[j].username != Some(name)
  {
    if users == [] then None
    else if users[0].username == Some(name) then Some(0)
    else
      var r := FindByUsername(users[1..], name);
      if r.None? then None else Some(r.value + 1)
  }

  /** `GetByIdAsync`: the user with that id, or null. */
  function FindById(users: seq<User>, id: int): (r: Option<nat>)
    ensures r.Some? <==> exists i | 0 <= i < |users| :: users[i].id == id
    ensures r.Some? ==> r.value < |users| && users[r.value].id == id
  {
    if users == [] then None
    else if users[0].id == id then Some(0)
    else
      var r := FindById(users[1..], id);
      if r.None? then None else Some(r.value + 1)
  }

  /** `GetByTokenAsync`: the position of the first stored token with that value, or null. */
  function FindToken(tokens: seq<RefreshToken>, value: string): (r: Option<nat>)
    ensures r.Some? <==> exists i | 0 <= i < |tokens| :: tokens[i].token == value
    ensures r.Some? ==> r.value < |tokens| && tokens[r.value].token == value
  {
    if tokens == [] then None
    else if tokens[0].token == value then Some(0)
    else
      var r := FindToken(tokens[1..], value);
      if r.None? then None else Some(r.value + 1)
  }

  /** The token table with the entry at `i` deleted. */
  function RemoveAt(tokens: seq<RefreshToken>, i: nat): (r: seq<RefreshToken>)
    requires i < |tokens|
    ensures |r| == |tokens| - 1
    ensures multiset(r) == multiset(tokens) - multiset{tokens[i]}
  {
    assert tokens == tokens[..i] + [tokens[i]] + tokens[i + 1..];
    tokens[..i] + tokens[i + 1..]
  }

  /**
   * `AuthenticateAsync`. An unknown username or a password that does not
   * match the stored hash gives 401 and changes nothing. Otherwise one new
   * refresh token is stored for the user, and the response carries status
   * 200, the user's profile, an access token and the new refresh token.
   */
  function Authenticate(a: Accounts, username: string, password: string,
                        verify: (string, Option<string>) -> bool, jwt: User -> string,
                        guid: string, now: Instant): (r: AuthResult)
    ensures r.response.statusCode == 200 <==>
      && FindByUsername(a.users, username).Some?
      && verify(password, a.users[FindByUsername(a.users, username).value].passwordHash)
    ensures r.response.statusCode != 200 ==> r.response == Status(401) && r.accounts == a
    ensures r.response.statusCode == 200 ==>
      var user := a.users[FindByUsername(a.users, username).value];
      && r.accounts == a.(tokens := a.tokens + [Generate(user.id, guid, now)])
      && r.response == AuthResponse(200, Some(user), Some(jwt(user)), Some(guid))
  {
    match FindByUsername(a.users, username)
    case None => AuthResult(Status(401), a)
    case Some(i) =>
      var user := a.users[i];
      if !verify(password, user.passwordHash) then AuthResult(Status(401), a)
      else
        var issued := Generate(user.id, guid, now);
        AuthResult(AuthResponse(200, Some(user), Some(jwt(user)), Some(issued.token)),
                   a.(tokens := a.tokens + [issued]))
  }

  /**
   * `RefreshTokenAsync`. A token that is not stored or has expired, or whose
   * user no longer exists, gives 401 and changes nothing. Otherwise the presented
   * token is deleted and exactly one new token for the same user is stored
   * and returned.
   */
  function Refresh(a: Accounts, value: string, jwt: User -> string, guid: string, now: Instant): (r: AuthResult)
    ensures r.response.statusCode == 200 <==>
      && FindToken(a.tokens, value).Some?
      && !IsExpired(a.tokens[FindToken(a.tokens, value).value], now)
      && FindById(a.users, a.tokens[FindToken(a.tokens, value).value].userId).Some?
    ensures r.response.statusCode != 200 ==> r.response == Status(401) && r.accounts == a
    ensures r.response.statusCode == 200 ==>
      var presented := a.tokens[FindToken(a.tokens, value).value];
      var issued := Generate(presented.userId, guid, now);
      && r.accounts.users == a.users && r.accounts.nextUserId == a.nextUserId
      && |r.accounts.tokens| == |a.tokens|
      && multiset(r.accounts.tokens) == multiset(a.tokens) - multiset{presented} + multiset{issued}
      && r.accounts.tokens[|a.tokens| - 1] == issued
      && r.response.refreshToken == Some(guid)
  {
    match FindToken(a.tokens, value)
    case None => AuthResult(Status(401), a)
    case Some(i) =>
      var presented := a.tokens[i];
      if IsExpired(presented, now) then AuthResult(Status(401), a)
      else
        match FindById(a.users, presented.userId)
        case None => AuthResult(Status(401), a)
        case Some(u) =>
          var user := a.users[u];
          var issued := Generate(user.id, guid, now);
          AuthResult(AuthResponse(200, Some(user), Some(jwt(user)), Some(issued.token)),
                     a.(tokens := RemoveAt(a.tokens, i) + [issued]))
  }

  /** The account `RegisterUserAsync` creates. */
  function NewUser(a: Accounts, username: string, password: string, email: string,
                   hash: string -> string): User {
    User(a.nextUserId, None, None, Some(email), Some(username), Some(hash(password)),
         true, None, Some([DefaultRole]))
  }

  /**
   * `RegisterUserAsync`. A taken username gives 400 and changes nothing.
   * Otherwise a verified account with the single role "User" and the hashed
   * password is added under a issued id, and the call continues as a login
   * with the same credentials.
   */
  function Register(a: Accounts, username: string, password: string, email: string,
                    verify: (string, Option<string>) -> bool, hash: string -> string,
                    jwt: User -> string, guid: string, now: Instant): (r: AuthResult)
    ensures r.response.statusCode == 400 <==> FindByUsername(a.users, username).Some?
    ensures r.response.statusCode == 400 ==> r.response == Status(400) && r.accounts == a
    ensures r.response.statusCode != 400 ==>
      |r.accounts.users| == |a.users| + 1 && r.accounts.users[..|a.users|] == a.users
    ensures r.response.statusCode != 400 && |r.accounts.users| == |a.users| + 1 ==>
      var u := r.accounts.users[|a.users|];
      && u.id == a.nextUserId && u.username == Some(username) && u.email == Some(email)
      && u.passwordHash == Some(hash(password)) && u.isVerified && u.roles == Some([DefaultRole])
      && r.accounts.nextUserId == a.nextUserId + 1
  {
    if FindByUsername(a.users, username).Some? then AuthResult(Status(400), a)
    else
      var created := a.(users := a.users + [NewUser(a, username, password, email, hash)],
                        nextUserId := a.nextUserId + 1);
      var r := Authenticate(created, username, password, verify, jwt, guid, now);
      assert r.accounts.users == created.users;
      r
  }

  /**
   * With a hash that verifies against its own password, registering a new
   * username logs the new user straight in: status 200 and one refresh token
   * for the new account.
   */
  lemma RegisterLogsIn(a: Accounts, username: string, password: string, email: string,
                       verify: (string, Option<string>) -> bool, hash: string -> string,
                       jwt: User -> string, guid: string, now: Instant)
    requires forall p :: verify(p, Some(hash(p)))
    requires FindByUsername(a.users, username).None?
    ensures var r := Register(a, username, password, email, verify, hash, jwt, guid, now);
      && r.response.statusCode == 200
      && r.accounts.tokens == a.tokens + [Generate(a.nextUserId, guid, now)]
      && r.response.refreshToken == Some(guid)
  {
    var u := NewUser(a, username, password, email, hash);
    var users := a.users + [u];
    assert users[|a.users|] == u;
    var k := FindByUsername(users, username);
    assert k.Some?;
    assert forall i | 0 <= i < |a.users| :: users[i] == a.users[i];
    assert k.value == |a.users|;
    assert verify(password, Some(hash(password)));
  }

  /** Registration keeps usernames unique and ids well formed. */
  lemma RegisterKeepsInvariants(a: Accounts, username: string, password: string, email: string,
                                verify: (string, Option<string>) -> bool, hash: string -> string,
                                jwt: User -> string, guid: string, now: Instant)
    requires IdsWellFormed(a) && UniqueUsernames(a.users)
    ensures var r := Register(a, username, password, email, verify, hash, jwt, guid, now);
      IdsWellFormed(r.accounts) && UniqueUsernames(r.accounts.users)
  {
    var r := Register(a, username, password, email, verify, hash, jwt, guid, now);
    if r.response.statusCode != 400 {
      var users := r.accounts.users;
      assert users == a.users + [users[|a.users|]];
      forall i, j | 0 <= i < j < |users| && users[i].username.Some?
        ensures users[i].username != users[j].username
      {
        if j == |a.users| {
          assert users[i] == a.users[i];
        } else {
          assert users[i] == a.users[i] && users[j] == a.users[j];
        }
      }
    }
  }

  /**
   * Rotation revokes: when stored token values are unique and the new value
   * is not among them, a successful refresh leaves the presented value
   * unusable and the values still unique.
   */
  lemma RefreshRevokesOldToken(a: Accounts, value: string, jwt: User -> string, guid: string, now: Instant)
    requires UniqueTokens(a.tokens)
    requires guid != value && forall i | 0 <= i < |a.tokens| :: a.tokens[i].token != guid
    requires Refresh(a, value, jwt, guid, now).response.statusCode == 200
    ensures var tokens := Refresh(a, value, jwt, guid, now).accounts.tokens;
      FindToken(tokens, value).None? && UniqueTokens(tokens)
  {
    var k := FindToken(a.tokens, value).value;
    var tokens := Refresh(a, value, jwt, guid, now).accounts.tokens;
    var kept := a.tokens[..k] + a.tokens[k + 1..];
    assert tokens == kept + [tokens[|tokens| - 1]];
    assert tokens[|tokens| - 1].token == guid;
    forall i | 0 <= i < |kept| ensures kept[i].token != value && kept[i].token != guid {
      if i < k {
        assert kept[i] == a.tokens[i];
      } else {
        assert kept[i] == a.tokens[i + 1];
      }
    }
    forall i, j | 0 <= i < j < |tokens| ensures tokens[i].token != tokens[j].token {
      if j < |kept| {
        var i', j' := if i < k then i else i + 1, if j < k then j else j + 1;
        assert kept[i] == a.tokens[i'] && kept[j] == a.tokens[j'];
      }
    }
  }

  /** Login, refresh and a refused registration never touch the user table. */
  lemma SessionsKeepUsers(a: Accounts, username: string, password: string, value: string,
                          verify: (string, Option<string>) -> bool, jwt: User -> string,
                          guid: string, now: Instant)
    ensures Authenticate(a, username, password, verify, jwt, guid, now).accounts.users == a.users
    ensures Refresh(a, value, jwt, guid, now).accounts.users == a.users
    ensures |Authenticate(a, username, password, verify, jwt, guid, now).accounts.tokens|
      <= |a.tokens| + 1
  {
  }
}
