/** Account verification: the `isAuthenticated` middleware, which resolves an
    `Authorization` header to the account holding the bearer token, and the `/login`
    route, which checks a password against the stored salted digest. The digest
    function is a parameter `hasher`: deterministic, and nothing else is known of it. */
module Auth {
  import opened Records
  import opened Collection
  import opened Queries

  const BearerPrefix := "Bearer "

  /** `pat` stands in `s` at position `i`. */
  predicate OccursAt(s: string, pat: string, i: nat)
  {
    i + |pat| <= |s| && s[i..i + |pat|] == pat
  }

  /** `i` is the leftmost position where `pat` stands in `s`. */
  predicate FirstOccurrence(s: string, pat: string, i: nat)
  {
    OccursAt(s, pat, i) && forall j :: 0 <= j < i ==> !OccursAt(s, pat, j)
  }

  /** The leftmost position at or after `k` where `pat` stands in `s` (JavaScript's `indexOf`). */
  function IndexFrom(s: string, pat: string, k: nat): (r: Option<nat>)
    requires k <= |s|
    decreases |s| - k
    ensures r.Some? ==> k <= r.value && OccursAt(s, pat, r.value)
                        && forall j :: k <= j < r.value ==> !OccursAt(s, pat, j)
    ensures r.None? ==> forall j :: k <= j <= |s| ==> !OccursAt(s, pat, j)
  {
    if OccursAt(s, pat, k) then Some(k)
    else if k == |s| then None
    else IndexFrom(s, pat, k + 1)
  }

  /** `authorization.replace("Bearer ", "")`: a string pattern makes `replace` remove only the
      FIRST occurrence of "Bearer ", wherever it stands; without one the header is the token. */
  function StripBearer(authorization: string): (token: string)
    ensures (forall i: nat :: i <= |authorization| ==> !OccursAt(authorization, BearerPrefix, i))
            ==> token == authorization
    ensures forall i: nat :: FirstOccurrence(authorization, BearerPrefix, i) ==>
              token == authorization[..i] + authorization[i + |BearerPrefix|..]
  {
    match IndexFrom(authorization, BearerPrefix, 0)
    case None => authorization
    case Some(i) => authorization[..i] + authorization[i + |BearerPrefix|..]
  }

  /** The header a client sends, `Bearer <token>`, yields exactly the token. */
  lemma StripBearerOfHeader(token: string)
    ensures StripBearer(BearerPrefix + token) == token
  {
    var header := BearerPrefix + token;
    assert header[0..|BearerPrefix|] == BearerPrefix;
    assert FirstOccurrence(header, BearerPrefix, 0);
    assert header[|BearerPrefix|..] == token;
  }

  /** The gate either halts the request with a response or passes it on with `req.user` set. */
  datatype Gate = Halt(response: Response) | Next(user: PublicUser)

  /** `isAuthenticated` for a present header: the first account holding the token, without
      salt and hash, or 401 "unauthorized" (and `next` is never called). */
  function Authenticate(users: seq<User>, authorization: string): (g: Gate)
    ensures g.Halt? <==> forall u :: u in users ==> u.token != StripBearer(authorization)
    ensures g.Halt? ==> g.response == Unauthorized
    ensures g.Next? ==> exists i :: 0 <= i < |users| && users[i].token == StripBearer(authorization)
                                    && (forall j :: 0 <= j < i ==> users[j].token != StripBearer(authorization))
                                    && g.user == Public(users[i])
  {
    var token := StripBearer(authorization);
    match FindFirst(users, ByToken(token))
    case None => Halt(Unauthorized)
    case Some(i) => Next(Public(users[i]))
  }

  /** An account whose token nobody else holds is recognised from its `Bearer` header. */
  lemma AuthenticateFreshToken(users: seq<User>, u: User)
    requires forall v :: v in users ==> v.token != u.token
    ensures Authenticate(users + [u], BearerPrefix + u.token) == Next(Public(u))
  {
    StripBearerOfHeader(u.token);
    FindFirstAppend(users, u, ByToken(u.token));
    assert (users + [u])[|users|] == u;
  }

  /** A later account changes the gate's answer for a header only if the header was
      unknown and the new account holds its token: tokens are never rotated. */
  lemma AuthenticateAfterSignup(users: seq<User>, v: User, authorization: string)
    requires Authenticate(users, authorization).Next? || v.token != StripBearer(authorization)
    ensures Authenticate(users + [v], authorization) == Authenticate(users, authorization)
  {
    var token := StripBearer(authorization);
    FindFirstAppend(users, v, ByToken(token));
    match FindFirst(users, ByToken(token)) {
      case None =>
      case Some(i) => assert (users + [v])[i] == users[i];
    }
  }

  /** `/login`: both fields present, an account with that email, and the digest of the
      password with the stored salt equal to the stored hash; the store is not touched. */
  function Login(users: seq<User>, hasher: string -> string, email: Field, password: Field): (r: Response)
    ensures r.status == 200 || r.status == 400
    ensures !Truthy(email) || !Truthy(password) ==> r == MissingParameters
    ensures Truthy(email) && Truthy(password) && (forall u :: u in users ==> u.email != email.s)
            ==> r == UnknownEmail
    ensures r.status == 200 ==>
              && Truthy(email) && Truthy(password)
              && exists u :: u in users && u.email == email.s && u.hash == hasher(password.s + u.salt)
                             && r.body == Account(u.id, u.token, u.username)
  {
    if !Truthy(email) || !Truthy(password) then MissingParameters
    else match FindFirst(users, ByEmail(email.s))
      case None => UnknownEmail
      case Some(i) =>
        var found := users[i];
        if found.hash != hasher(password.s + found.salt) then WrongPassword
        else Response(200, Account(found.id, found.token, found.username))
  }

  /** With unique emails, the lookup finds `u` itself. */
  lemma EmailLookupFinds(users: seq<User>, u: User)
    requires UniqueKeys(users, EmailOf) && u in users
    ensures FindFirst(users, ByEmail(u.email)).Some? && users[FindFirst(users, ByEmail(u.email)).value] == u
  {
    var k :| 0 <= k < |users| && users[k] == u;
    assert ByEmail(u.email)(users[k]);
  }

  /** With unique emails, the stored account's own password logs it in. */
  lemma LoginAcceptsStoredAccount(users: seq<User>, hasher: string -> string, u: User, password: string)
    requires UniqueKeys(users, EmailOf) && u in users
    requires u.email != "" && password != ""
    requires u.hash == hasher(password + u.salt)
    ensures Login(users, hasher, Text(u.email), Text(password)) == Response(200, Account(u.id, u.token, u.username))
  {
    EmailLookupFinds(users, u);
  }

  /** With unique emails, a password whose salted digest differs from the stored hash is
      refused as an invalid email/password pair. */
  lemma LoginRejectsHashMismatch(users: seq<User>, hasher: string -> string, u: User, password: string)
    requires UniqueKeys(users, EmailOf) && u in users
    requires u.email != "" && password != ""
    requires u.hash != hasher(password + u.salt)
    ensures Login(users, hasher, Text(u.email), Text(password)) == WrongPassword
  {
    EmailLookupFinds(users, u);
  }

  /** Round trip: the account a signup appends (its email new to the table, its hash the
      digest of password + salt) logs in with the same id, token and username. */
  lemma LoginAfterSignup(users: seq<User>, hasher: string -> string, u: User, password: string)
    requires forall v :: v in users ==> v.email != u.email
    requires u.email != "" && password != ""
    requires u.hash == hasher(password + u.salt)
    ensures Login(users + [u], hasher, Text(u.email), Text(password)) == Response(200, Account(u.id, u.token, u.username))
  {
    FindFirstAppend(users, u, ByEmail(u.email));
    assert (users + [u])[|users|] == u;
  }

  /** A later signup with another email leaves every login answer as it was. */
  lemma LoginAfterOtherSignup(users: seq<User>, hasher: string -> string, v: User, email: Field, password: Field)
    requires Truthy(email) ==> v.email != email.s
    ensures Login(users + [v], hasher, email, password) == Login(users, hasher, email, password)
  {
    if Truthy(email) {
      FindFirstAppend(users, v, ByEmail(email.s));
      match FindFirst(users, ByEmail(email.s)) {
        case None =>
        case Some(i) => assert (users + [v])[i] == users[i];
      }
    }
  }
}
