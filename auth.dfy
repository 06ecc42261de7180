/**
 * The session service of backend/routes/auth.py: a `users` table whose rows
 * carry at most one opaque session token with its expiry, the four operations
 * that change it (register, login, logout, the lazy expiry inside the
 * `token_required` guard) and the pure role check of `admin_required`.
 *
 * Each operation is a method of `UserTable` proved equal to a pure transition
 * function (`RegisterSpec`, `LoginSpec`, `LogoutSpec`, `AuthenticateSpec`);
 * the lemmas relate several calls of those functions.
 */
module Auth {
  import opened Common

  /** `timedelta(hours=1)`, in seconds. */
  const SessionSeconds: int := 3600
  /** The role given when the registration body has no `role` key. */
  const DefaultRole: string := "user"
  /** The only role `admin_required` lets through. */
  const AdminRole: string := "admin"
  /** What an `Authorization` header must start with. */
  const BearerPrefix: string := "Bearer "

  /** One row of the `users` table; `token` and `expiry` are SQL NULL when there is no session. */
  datatype User = User(id: nat, username: string, pwHash: string, role: string,
                       token: Option<string>, expiry: Option<int>)

  /** What `token_required` attaches to the request for the handler. */
  datatype Identity = Identity(id: nat, username: string, role: string)

  /** The per-account session state machine: `NoSession -> Active -> NoSession`, `Active -> Active` on re-login. */
  datatype Session = NoSession | Active(token: string, expiry: Option<int>)

  /** The whole table with its auto-increment counter. */
  datatype Accounts = Accounts(users: seq<User>, nextId: nat)

  /** What the guard decides: run the handler as `who`, or answer `status` at once. */
  datatype Guard = Pass(who: Identity) | Deny(status: int)

  /** The answer of the login route: the token, its expiry and the account's role, or a status. */
  datatype LoginResult = Issued(token: string, expiresAt: int, role: string) | Refused(status: int)

  function SessionOf(u: User): Session {
    match u.token
    case None => NoSession
    case Some(t) => Active(t, u.expiry)
  }

  function IdentityOf(u: User): Identity {
    Identity(u.id, u.username, u.role)
  }

  /** Python's `not value` for an optional string from the JSON body: absent, null or empty. */
  predicate Blank(s: Option<string>) {
    s.None? || s.value == []
  }

  /** The check at auth.py:175: a NULL expiry never expires, otherwise strictly before `now`. */
  predicate Expired(u: User, now: int) {
    u.expiry.Some? && u.expiry.value < now
  }

  /** The table invariant: ids below the counter and increasing in storage order, unique usernames, token and expiry set together. */
  ghost predicate WellFormed(a: Accounts) {
    && (forall i :: 0 <= i < |a.users| ==> a.users[i].id < a.nextId)
    && (forall i, j :: 0 <= i < j < |a.users| ==> a.users[i].id < a.users[j].id)
    && (forall i, j :: 0 <= i < j < |a.users| ==> a.users[i].username != a.users[j].username)
    && (forall i :: 0 <= i < |a.users| ==> (a.users[i].token.Some? <==> a.users[i].expiry.Some?))
  }

  /** No two accounts hold the same token. The code never checks it; it holds while every issued token is new. */
  ghost predicate TokensDistinct(users: seq<User>) {
    forall i, j :: 0 <= i < j < |users| && users[i].token.Some? ==> users[i].token != users[j].token
  }

  // ---------------------------------------------------------------------------
  // The `Authorization: Bearer <token>` header

  /** The text before the first space: element 1 of `split(' ')` once the prefix is gone. */
  function FirstWord(s: string): (w: string)
    ensures w <= s && ' ' !in w
    ensures |w| < |s| ==> s[|w|] == ' '
  {
    if |s| == 0 || s[0] == ' ' then [] else [s[0]] + FirstWord(s[1..])
  }

  /** `auth_header.split(' ')[1]` after the `startswith('Bearer ')` test; `None` is the 401 branch. */
  function BearerToken(header: Option<string>): (t: Option<string>)
    ensures t.Some? <==> header.Some? && BearerPrefix <= header.value
    ensures t.Some? ==> ' ' !in t.value && BearerPrefix + t.value <= header.value
    ensures t.Some? && |BearerPrefix + t.value| < |header.value| ==>
              header.value[|BearerPrefix + t.value|] == ' '
  {
    match header
    case None => None
    case Some(h) => if BearerPrefix <= h then Some(FirstWord(h[|BearerPrefix|..])) else None
  }

  /** A token without spaces sent as `Bearer <token>` is read back exactly. */
  lemma {:induction false} BearerRoundTrip(t: string)
    requires ' ' !in t
    ensures BearerToken(Some(BearerPrefix + t)) == Some(t)
  {
    var h := BearerPrefix + t;
    assert h[|BearerPrefix|..] == t;
    FirstWordWhole(t);
  }

  lemma {:induction false} FirstWordWhole(s: string)
    requires ' ' !in s
    ensures FirstWord(s) == s
  {
    if |s| > 0 {
      assert s[0] in s;
      assert forall c :: c in s[1..] ==> c in s;
      FirstWordWhole(s[1..]);
    }
  }

  // ---------------------------------------------------------------------------
  // Queries and updates of the table (the SQL statements of auth.py)

  /** `SELECT ... FROM users WHERE username = %s`, `fetchone()`. */
  function FindByName(users: seq<User>, name: string): (r: Option<nat>)
    ensures r.Some? ==> r.value < |users| && users[r.value].username == name
    ensures r.None? <==> forall j :: 0 <= j < |users| ==> users[j].username != name
  {
    FirstWhere(users, (u: User) => u.username == name)
  }

  /** `SELECT ... FROM users WHERE token = %s`, `fetchone()`: the first holder in storage order. */
  function FindByToken(users: seq<User>, t: string): (r: Option<nat>)
    ensures r.Some? ==> r.value < |users| && users[r.value].token == Some(t)
    ensures r.Some? ==> forall j :: 0 <= j < r.value ==> users[j].token != Some(t)
    ensures r.None? <==> forall j :: 0 <= j < |users| ==> users[j].token != Some(t)
  {
    FirstWhere(users, (u: User) => u.token == Some(t))
  }

  function Signed(u: User, t: string, e: int): User {
    u.(token := Some(t), expiry := Some(e))
  }

  function Cleared(u: User): User {
    u.(token := None, expiry := None)
  }

  /** `UPDATE users SET token = %s, token_expiry = %s WHERE id = %s`. */
  function SetSession(users: seq<User>, id: nat, t: string, e: int): (r: seq<User>)
    ensures |r| == |users|
    ensures forall i :: 0 <= i < |r| ==> IdentityOf(r[i]) == IdentityOf(users[i]) && r[i].pwHash == users[i].pwHash
    ensures forall i :: 0 <= i < |r| ==>
              if users[i].id == id then SessionOf(r[i]) == Active(t, Some(e)) else r[i] == users[i]
  {
    seq(|users|, i requires 0 <= i < |users| => if users[i].id == id then Signed(users[i], t, e) else users[i])
  }

  /** `UPDATE users SET token = NULL, token_expiry = NULL WHERE id = %s`. */
  function ClearId(users: seq<User>, id: nat): (r: seq<User>)
    ensures |r| == |users|
    ensures forall i :: 0 <= i < |r| ==> IdentityOf(r[i]) == IdentityOf(users[i]) && r[i].pwHash == users[i].pwHash
    ensures forall i :: 0 <= i < |r| ==>
              if users[i].id == id then r[i].token.None? && r[i].expiry.None? else r[i] == users[i]
  {
    seq(|users|, i requires 0 <= i < |users| => if users[i].id == id then Cleared(users[i]) else users[i])
  }

  /** `UPDATE users SET token = NULL, token_expiry = NULL WHERE token = %s`. */
  function ClearToken(users: seq<User>, t: string): (r: seq<User>)
    ensures |r| == |users|
    ensures forall i :: 0 <= i < |r| ==> IdentityOf(r[i]) == IdentityOf(users[i]) && r[i].pwHash == users[i].pwHash
    ensures forall i :: 0 <= i < |r| ==>
              if users[i].token == Some(t) then r[i].token.None? && r[i].expiry.None? else r[i] == users[i]
    ensures forall i :: 0 <= i < |r| ==> r[i].token != Some(t)
  {
    seq(|users|, i requires 0 <= i < |users| => if users[i].token == Some(t) then Cleared(users[i]) else users[i])
  }

  /** The number of rows holding `t`: the `rowcount` of `ClearToken`. */
  function Holders(users: seq<User>, t: string): (n: nat)
    ensures n <= |users|
  {
    if |users| == 0 then 0
    else (if users[0].token == Some(t) then 1 else 0) + Holders(users[1..], t)
  }

  /** `rowcount > 0` exactly when some row held the token. */
  lemma {:induction false} HoldersPositive(users: seq<User>, t: string)
    ensures Holders(users, t) > 0 <==> FindByToken(users, t).Some?
  {
    if |users| > 0 {
      HoldersPositive(users[1..], t);
      if users[0].token != Some(t) && FindByToken(users[1..], t).None? {
        forall j | 0 <= j < |users| ensures users[j].token != Some(t) {
          if j > 0 { assert users[j] == users[1..][j - 1]; }
        }
      }
      if FindByToken(users, t).None? {
        forall j | 0 <= j < |users[1..]| ensures users[1..][j].token != Some(t) {
          assert users[1..][j] == users[j + 1];
        }
      }
    }
  }

  // ---------------------------------------------------------------------------
  // The operations as transition functions

  /** `register_user` (auth.py:24-61). */
  function RegisterSpec(a: Accounts, username: Option<string>, password: Option<string>,
                        role: Option<string>, hash: string): (r: (Accounts, int))
    ensures r.1 in {201, 400, 409}
    ensures r.1 == 400 <==> Blank(username) || Blank(password)
    ensures r.1 == 409 <==> !Blank(username) && !Blank(password) && FindByName(a.users, username.value).Some?
    ensures r.1 != 201 ==> r.0 == a
    ensures r.1 == 201 ==>
              && r.0.nextId == a.nextId + 1
              && |r.0.users| == |a.users| + 1
              && r.0.users[..|a.users|] == a.users
              && var u := r.0.users[|a.users|];
                 u.id == a.nextId && u.username == username.value && u.pwHash == hash
                 && u.role == role.GetOr(DefaultRole) && SessionOf(u) == NoSession
  {
    if Blank(username) || Blank(password) then (a, 400)
    else if FindByName(a.users, username.value).Some? then (a, 409)
    else
      var u := User(a.nextId, username.value, hash, role.GetOr(DefaultRole), None, None);
      (Accounts(a.users + [u], a.nextId + 1), 201)
  }

  /** `login_user` (auth.py:63-111); `newToken` stands for `uuid4()`, `now` for `datetime.now()`. */
  function LoginSpec(users: seq<User>, username: Option<string>, password: Option<string>,
                     newToken: string, now: int, checkPw: (string, string) -> bool): (r: (seq<User>, LoginResult))
    ensures r.1.Refused? ==> r.0 == users && r.1.status in {400, 401}
    ensures r.1 == Refused(400) <==> Blank(username) || Blank(password)
    ensures r.1.Issued? <==>
              && !Blank(username) && !Blank(password)
              && FindByName(users, username.value).Some?
              && checkPw(password.value, users[FindByName(users, username.value).value].pwHash)
    ensures r.1.Issued? ==>
              var u := users[FindByName(users, username.value).value];
              && r.1 == Issued(newToken, now + SessionSeconds, u.role)
              && r.0 == SetSession(users, u.id, newToken, now + SessionSeconds)
  {
    if Blank(username) || Blank(password) then (users, Refused(400))
    else match FindByName(users, username.value)
      case None => (users, Refused(401))
      case Some(i) =>
        if !checkPw(password.value, users[i].pwHash) then (users, Refused(401))
        else
          var expiry := now + SessionSeconds;
          (SetSession(users, users[i].id, newToken, expiry), Issued(newToken, expiry, users[i].role))
  }

  /** `logout_user` (auth.py:113-145). */
  function LogoutSpec(users: seq<User>, header: Option<string>): (r: (seq<User>, int))
    ensures BearerToken(header).None? ==> r == (users, 401)
    ensures BearerToken(header).Some? ==>
              var t := BearerToken(header).value;
              && r.0 == ClearToken(users, t)
              && FindByToken(r.0, t).None?
              && r.1 == (if FindByToken(users, t).Some? then 200 else 401)
  {
    match BearerToken(header)
    case None => (users, 401)
    case Some(t) =>
      HoldersPositive(users, t);
      (ClearToken(users, t), if Holders(users, t) > 0 then 200 else 401)
  }

  /** `token_required` (auth.py:147-193) up to the call of the handler. */
  function AuthenticateSpec(users: seq<User>, header: Option<string>, now: int): (r: (seq<User>, Guard))
    ensures r.1.Deny? ==> r.1.status == 401
    ensures r.1.Pass? ==> r.0 == users
    ensures BearerToken(header).None? ==> r == (users, Deny(401))
    ensures BearerToken(header).Some? && FindByToken(users, BearerToken(header).value).None? ==>
              r == (users, Deny(401))
    ensures BearerToken(header).Some? && FindByToken(users, BearerToken(header).value).Some? ==>
              var u := users[FindByToken(users, BearerToken(header).value).value];
              r == if Expired(u, now) then (ClearId(users, u.id), Deny(401)) else (users, Pass(IdentityOf(u)))
  {
    match BearerToken(header)
    case None => (users, Deny(401))
    case Some(t) =>
      match FindByToken(users, t)
      case None => (users, Deny(401))
      case Some(i) =>
        if Expired(users[i], now) then (ClearId(users, users[i].id), Deny(401))
        else (users, Pass(IdentityOf(users[i])))
  }

  /** `admin_required` (auth.py:195-206): `None` runs the handler; `role` is `None` when no guard set it. */
  function AdminRequired(role: Option<string>): (r: Option<int>)
    ensures r.None? <==> role == Some(AdminRole)
    ensures r.Some? ==> r.value == 403
  {
    if role.None? || role.value != AdminRole then Some(403) else None
  }

  // ---------------------------------------------------------------------------
  // What the transitions preserve

  /** Rewriting only sessions (same ids and names, token and expiry still set together) keeps the invariant. */
  lemma SessionsOnlyKeepWellFormed(a: Accounts, users: seq<User>)
    requires WellFormed(a) && |users| == |a.users|
    requires forall i :: 0 <= i < |users| ==> users[i].id == a.users[i].id && users[i].username == a.users[i].username
    requires forall i :: 0 <= i < |users| ==> (users[i].token.Some? <==> users[i].expiry.Some?)
    ensures WellFormed(Accounts(users, a.nextId))
  {
  }

  /** Clearing sessions never makes two accounts share a token. */
  lemma ClearingKeepsTokensDistinct(before: seq<User>, after: seq<User>)
    requires TokensDistinct(before) && |after| == |before|
    requires forall i :: 0 <= i < |after| ==> after[i] == before[i] || after[i] == Cleared(before[i])
    ensures TokensDistinct(after)
  {
  }

  lemma ClearTokenKeepsInvariants(a: Accounts, t: string)
    requires WellFormed(a)
    ensures WellFormed(Accounts(ClearToken(a.users, t), a.nextId))
    ensures TokensDistinct(a.users) ==> TokensDistinct(ClearToken(a.users, t))
  {
    SessionsOnlyKeepWellFormed(a, ClearToken(a.users, t));
    if TokensDistinct(a.users) {
      ClearingKeepsTokensDistinct(a.users, ClearToken(a.users, t));
    }
  }

  lemma ClearIdKeepsInvariants(a: Accounts, id: nat)
    requires WellFormed(a)
    ensures WellFormed(Accounts(ClearId(a.users, id), a.nextId))
    ensures TokensDistinct(a.users) ==> TokensDistinct(ClearId(a.users, id))
  {
    SessionsOnlyKeepWellFormed(a, ClearId(a.users, id));
    if TokensDistinct(a.users) {
      ClearingKeepsTokensDistinct(a.users, ClearId(a.users, id));
    }
  }

  lemma RegisterKeepsWellFormed(a: Accounts, username: Option<string>, password: Option<string>,
                                role: Option<string>, hash: string)
    requires WellFormed(a)
    ensures WellFormed(RegisterSpec(a, username, password, role, hash).0)
  {
  }

  /** A successful login changes the session of exactly the account it found, and nothing else. */
  lemma LoginTouchesOnlyAccount(a: Accounts, username: Option<string>, password: Option<string>,
                                newToken: string, now: int, checkPw: (string, string) -> bool)
    requires WellFormed(a)
    requires LoginSpec(a.users, username, password, newToken, now, checkPw).1.Issued?
    ensures var r := LoginSpec(a.users, username, password, newToken, now, checkPw).0;
            var i := FindByName(a.users, username.value).value;
            && |r| == |a.users|
            && r[i] == Signed(a.users[i], newToken, now + SessionSeconds)
            && SessionOf(r[i]) == Active(newToken, Some(now + SessionSeconds))
            && (forall j :: 0 <= j < |a.users| && j != i ==> r[j] == a.users[j])
  {
    var i := FindByName(a.users, username.value).value;
    forall j | 0 <= j < |a.users| && j != i ensures a.users[j].id != a.users[i].id {
      if j < i { assert a.users[j].id < a.users[i].id; } else { assert a.users[i].id < a.users[j].id; }
    }
  }

  lemma LoginKeepsWellFormed(a: Accounts, username: Option<string>, password: Option<string>,
                             newToken: string, now: int, checkPw: (string, string) -> bool)
    requires WellFormed(a)
    ensures WellFormed(Accounts(LoginSpec(a.users, username, password, newToken, now, checkPw).0, a.nextId))
  {
    var r := LoginSpec(a.users, username, password, newToken, now, checkPw);
    if r.1.Issued? {
      var u := a.users[FindByName(a.users, username.value).value];
      SessionsOnlyKeepWellFormed(a, SetSession(a.users, u.id, newToken, now + SessionSeconds));
    }
  }

  /** Login keeps tokens distinct when the new token is held by no account. */
  lemma LoginKeepsTokensDistinct(a: Accounts, username: Option<string>, password: Option<string>,
                                 newToken: string, now: int, checkPw: (string, string) -> bool)
    requires WellFormed(a) && TokensDistinct(a.users)
    requires FindByToken(a.users, newToken).None?
    ensures TokensDistinct(LoginSpec(a.users, username, password, newToken, now, checkPw).0)
  {
    if LoginSpec(a.users, username, password, newToken, now, checkPw).1.Issued? {
      LoginTouchesOnlyAccount(a, username, password, newToken, now, checkPw);
    }
  }

  lemma LogoutKeepsInvariants(a: Accounts, header: Option<string>)
    requires WellFormed(a)
    ensures WellFormed(Accounts(LogoutSpec(a.users, header).0, a.nextId))
    ensures TokensDistinct(a.users) ==> TokensDistinct(LogoutSpec(a.users, header).0)
  {
    if BearerToken(header).Some? {
      ClearTokenKeepsInvariants(a, BearerToken(header).value);
    }
  }

  lemma AuthenticateKeepsInvariants(a: Accounts, header: Option<string>, now: int)
    requires WellFormed(a)
    ensures WellFormed(Accounts(AuthenticateSpec(a.users, header, now).0, a.nextId))
    ensures TokensDistinct(a.users) ==> TokensDistinct(AuthenticateSpec(a.users, header, now).0)
  {
    var t := BearerToken(header);
    if t.Some? && FindByToken(a.users, t.value).Some? {
      ClearIdKeepsInvariants(a, a.users[FindByToken(a.users, t.value).value].id);
    }
  }

  // ---------------------------------------------------------------------------
  // Properties that relate several calls

  /** An account registered with a password can log in with it at once. */
  lemma RegisterThenLogin(a: Accounts, username: Option<string>, password: Option<string>,
                          role: Option<string>, hash: string,
                          newToken: string, now: int, checkPw: (string, string) -> bool)
    requires WellFormed(a)
    requires RegisterSpec(a, username, password, role, hash).1 == 201
    requires checkPw(password.value, hash)
    ensures LoginSpec(RegisterSpec(a, username, password, role, hash).0.users, username, password, newToken, now, checkPw).1
            == Issued(newToken, now + SessionSeconds, role.GetOr(DefaultRole))
  {
    var us := RegisterSpec(a, username, password, role, hash).0.users;
    var k := FindByName(us, username.value);
    assert us[|a.users|].username == username.value;
    assert k.Some?;
    assert forall j :: 0 <= j < |a.users| ==> us[j] == a.users[j];
  }

  /** Logging in again revokes the account's previous token: it no longer authenticates anyone. */
  lemma ReLoginRevokesOldToken(a: Accounts, username: Option<string>, password: Option<string>,
                               newToken: string, now: int, checkPw: (string, string) -> bool,
                               header: Option<string>, later: int)
    requires WellFormed(a) && TokensDistinct(a.users)
    requires LoginSpec(a.users, username, password, newToken, now, checkPw).1.Issued?
    requires BearerToken(header).Some?
    requires a.users[FindByName(a.users, username.value).value].token == BearerToken(header)
    requires BearerToken(header).value != newToken
    ensures var r := LoginSpec(a.users, username, password, newToken, now, checkPw).0;
            && FindByToken(r, BearerToken(header).value).None?
            && AuthenticateSpec(r, header, later) == (r, Deny(401))
  {
    var r := LoginSpec(a.users, username, password, newToken, now, checkPw).0;
    var i := FindByName(a.users, username.value).value;
    var prev := BearerToken(header).value;
    LoginTouchesOnlyAccount(a, username, password, newToken, now, checkPw);
    forall j | 0 <= j < |r| ensures r[j].token != Some(prev) {
      if j != i {
        if j < i { assert a.users[j].token != a.users[i].token; }
        else { assert a.users[i].token != a.users[j].token; }
      }
    }
  }

  /**
   * A token issued to an account authenticates that account until its expiry
   * inclusive and not a second later (the comparison of auth.py:175 is strict).
   */
  lemma LoginThenAuthenticate(a: Accounts, username: Option<string>, password: Option<string>,
                              newToken: string, now: int, checkPw: (string, string) -> bool, later: int)
    requires WellFormed(a)
    requires FindByToken(a.users, newToken).None?
    requires ' ' !in newToken
    requires LoginSpec(a.users, username, password, newToken, now, checkPw).1.Issued?
    ensures var r := LoginSpec(a.users, username, password, newToken, now, checkPw).0;
            var u := a.users[FindByName(a.users, username.value).value];
            AuthenticateSpec(r, Some(BearerPrefix + newToken), later).1
            == if later <= now + SessionSeconds then Pass(IdentityOf(u)) else Deny(401)
  {
    var r := LoginSpec(a.users, username, password, newToken, now, checkPw).0;
    var i := FindByName(a.users, username.value).value;
    LoginTouchesOnlyAccount(a, username, password, newToken, now, checkPw);
    BearerRoundTrip(newToken);
    assert r[i].token == Some(newToken);
    forall j | 0 <= j < |r| && j != i ensures r[j].token != Some(newToken) {
      assert r[j] == a.users[j];
    }
    assert FindByToken(r, newToken) == Some(i);
  }

  /**
   * Lazy expiry: an expired token is cleared from its account when presented,
   * so presenting it again fails as unknown, at any time.
   */
  lemma ExpiredTokenRevoked(users: seq<User>, header: Option<string>, now: int, later: int)
    requires TokensDistinct(users)
    requires BearerToken(header).Some? && FindByToken(users, BearerToken(header).value).Some?
    requires Expired(users[FindByToken(users, BearerToken(header).value).value], now)
    ensures var r := AuthenticateSpec(users, header, now);
            var i := FindByToken(users, BearerToken(header).value).value;
            && r.1 == Deny(401)
            && SessionOf(r.0[i]) == NoSession
            && AuthenticateSpec(r.0, header, later) == (r.0, Deny(401))
  {
    var t := BearerToken(header).value;
    var i := FindByToken(users, t).value;
    var r := AuthenticateSpec(users, header, now).0;
    forall j | 0 <= j < |r| ensures r[j].token != Some(t) {
      if j != i && users[j].id != users[i].id {
        if j < i { assert users[j].token != users[i].token; }
        else { assert users[i].token != users[j].token; }
      }
    }
  }

  /** A successful authentication does not extend the session: the table is unchanged. */
  lemma AuthenticateNoSliding(users: seq<User>, header: Option<string>, now: int)
    requires AuthenticateSpec(users, header, now).1.Pass?
    ensures AuthenticateSpec(users, header, now).0 == users
    ensures var u := AuthenticateSpec(users, header, now).1.who;
            exists i :: 0 <= i < |users| && IdentityOf(users[i]) == u && users[i].token == BearerToken(header)
                        && !Expired(users[i], now)
  {
    var i := FindByToken(users, BearerToken(header).value).value;
    assert IdentityOf(users[i]) == AuthenticateSpec(users, header, now).1.who;
  }

  /** Logout is not idempotent in its answer: the same header a second time gets 401 and changes nothing. */
  lemma LogoutTwice(users: seq<User>, header: Option<string>)
    ensures var r := LogoutSpec(users, header).0;
            LogoutSpec(r, header) == (r, 401)
  {
    var r := LogoutSpec(users, header).0;
    if BearerToken(header).Some? {
      var t := BearerToken(header).value;
      assert ClearToken(r, t) == r;
    }
  }

  /** After logout the token no longer authenticates. */
  lemma LogoutRevokes(users: seq<User>, header: Option<string>, now: int)
    ensures var r := LogoutSpec(users, header).0;
            AuthenticateSpec(r, header, now) == (r, Deny(401))
  {
  }

  // ---------------------------------------------------------------------------
  // The table as the routes update it

  class UserTable {
    var users: seq<User>
    var nextId: nat
    /** `bcrypt.checkpw(password, hash)`, left uninterpreted. */
    const checkPw: (string, string) -> bool

    ghost predicate Valid()
      reads this
    {
      WellFormed(Accounts(users, nextId))
    }

    /** An empty table whose AUTO_INCREMENT starts at 1. */
    constructor (checkPw: (string, string) -> bool)
      ensures Valid() && users == [] && nextId == 1 && this.checkPw == checkPw
    {
      users := [];
      nextId := 1;
      this.checkPw := checkPw;
    }

    /** `register_user`: `hash` stands for `bcrypt.hashpw(password, gensalt())`. */
    method Register(username: Option<string>, password: Option<string>, role: Option<string>, hash: string)
      returns (status: int)
      requires Valid()
      modifies this
      ensures Valid()
      ensures (Accounts(users, nextId), status)
              == RegisterSpec(Accounts(old(users), old(nextId)), username, password, role, hash)
    {
      if Blank(username) || Blank(password) {
        return 400;
      }
      if FindByName(users, username.value).Some? {
        // the INSERT violates the UNIQUE constraint on username
        return 409;
      }
      RegisterKeepsWellFormed(Accounts(users, nextId), username, password, role, hash);
      users := users + [User(nextId, username.value, hash, role.GetOr(DefaultRole), None, None)];
      nextId := nextId + 1;
      status := 201;
    }

    /** `login_user`: `newToken` stands for `str(uuid.uuid4())`, `now` for `datetime.now()`. */
    method Login(username: Option<string>, password: Option<string>, newToken: string, now: int)
      returns (r: LoginResult)
      requires Valid()
      modifies this
      ensures Valid() && nextId == old(nextId)
      ensures (users, r) == LoginSpec(old(users), username, password, newToken, now, checkPw)
    {
      if Blank(username) || Blank(password) {
        return Refused(400);
      }
      var found := FindByName(users, username.value);
      if found.None? || !checkPw(password.value, users[found.value].pwHash) {
        return Refused(401);
      }
      LoginKeepsWellFormed(Accounts(users, nextId), username, password, newToken, now, checkPw);
      var account := users[found.value];
      var expiry := now + SessionSeconds;
      users := SetSession(users, account.id, newToken, expiry);
      r := Issued(newToken, expiry, account.role);
    }

    /** `logout_user`. */
    method Logout(header: Option<string>) returns (status: int)
      requires Valid()
      modifies this
      ensures Valid() && nextId == old(nextId)
      ensures (users, status) == LogoutSpec(old(users), header)
    {
      var t := BearerToken(header);
      if t.None? {
        return 401;
      }
      LogoutKeepsInvariants(Accounts(users, nextId), header);
      var rowcount := Holders(users, t.value);
      users := ClearToken(users, t.value);
      status := if rowcount > 0 then 200 else 401;
    }

    /** The guard of `token_required`, returning the identity it would attach to the request. */
    method TokenRequired(header: Option<string>, now: int) returns (g: Guard)
      requires Valid()
      modifies this
      ensures Valid() && nextId == old(nextId)
      ensures (users, g) == AuthenticateSpec(old(users), header, now)
    {
      var t := BearerToken(header);
      if t.None? {
        return Deny(401);
      }
      var found := FindByToken(users, t.value);
      if found.None? {
        return Deny(401);
      }
      AuthenticateKeepsInvariants(Accounts(users, nextId), header, now);
      var u := users[found.value];
      if u.expiry.Some? && u.expiry.value < now {
        users := ClearId(users, u.id);
        return Deny(401);
      }
      g := Pass(Identity(u.id, u.username, u.role));
    }
  }
}
