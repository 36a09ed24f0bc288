/** The route handlers of the GamePad backend over one in-memory store. The routes that
    insert or delete (`/signup`, `/favorite`, `/deleteFav`, `/review`) are methods of
    `Store`; the routes that only read (`/login`, `/favoritesOfUser`, `/reviews`, and the
    gate in auth.dfy) are functions of the tables. Protected routes receive the
    `Authorization` header and run the gate before their handler, as the middleware does. */
module Server {
  import opened Records
  import opened Collection
  import opened Queries
  import opened Auth

  /** The user, favorite and review tables, in insertion order, and the source of fresh
      document ids (one counter for all three tables). */
  class Store {
    var users: seq<User>
    var favorites: seq<Favorite>
    var reviews: seq<Review>
    var nextId: nat
    const hasher: string -> string

    /** The uniqueness rules the routes enforce, and ids below the counter. */
    ghost predicate Valid()
      reads this
    {
      && UniqueKeys(users, EmailOf)
      && UniqueKeys(users, UsernameOf)
      && UniqueKeys(users, UserIdOf)
      && UniqueKeys(favorites, FavoriteKey)
      && UniqueKeys(reviews, ReviewKey)
      && (forall u :: u in users ==> u.id < nextId)
      && (forall f :: f in favorites ==> f.id < nextId)
      && (forall r :: r in reviews ==> r.id < nextId)
    }

    constructor (hasher: string -> string)
      ensures Valid()
      ensures users == [] && favorites == [] && reviews == [] && nextId == 0
      ensures this.hasher == hasher
    {
      users, favorites, reviews, nextId := [], [], [], 0;
      this.hasher := hasher;
    }

    /** `/signup`. Missing fields first, then a used email, then a used username; otherwise
        one account is appended whose hash is the digest of password + salt, and the answer
        carries its id, token and username (never salt or hash). */
    method Signup(username: Field, email: Field, password: Field, salt: string, token: string)
      returns (resp: Response)
      requires Valid()
      modifies this
      ensures Valid()
      ensures favorites == old(favorites) && reviews == old(reviews)
      ensures !(Truthy(username) && Truthy(email) && Truthy(password)) ==> resp == MissingParameters && unchanged(this)
      ensures Truthy(username) && Truthy(email) && Truthy(password) ==>
                if exists v :: v in old(users) && v.email == email.s then
                  resp == EmailUsed && unchanged(this)
                else if exists v :: v in old(users) && v.username == username.s then
                  resp == UsernameUsed && unchanged(this)
                else
                  && users == old(users) + [User(old(nextId), email.s, username.s, token, salt, hasher(password.s + salt))]
                  && nextId == old(nextId) + 1
                  && resp == Response(201, Account(old(nextId), token, username.s))
    {
      if !Truthy(username) || !Truthy(email) || !Truthy(password) {
        return MissingParameters;
      }
      var existingUser := FindFirst(users, ByEmail(email.s));
      if existingUser.Some? {
        assert users[existingUser.value] in users;
        return EmailUsed;
      }
      var existingUsername := FindFirst(users, ByUsername(username.s));
      if existingUsername.Some? {
        assert users[existingUsername.value] in users;
        return UsernameUsed;
      }
      var newUser := User(nextId, email.s, username.s, token, salt, hasher(password.s + salt));
      SaveUser(newUser);
      resp := Response(201, Account(newUser.id, newUser.token, newUser.username));
    }

    /** `newUser.save()`: appends an account whose email and username are new to the table
        and whose id is the next fresh one. */
    method SaveUser(u: User)
      requires Valid()
      requires u.id == nextId
      requires forall v :: v in users ==> v.email != u.email && v.username != u.username
      modifies this
      ensures Valid()
      ensures users == old(users) + [u] && nextId == old(nextId) + 1
      ensures favorites == old(favorites) && reviews == old(reviews)
    {
      UniqueKeysAppend(users, u, EmailOf);
      UniqueKeysAppend(users, u, UsernameOf);
      UniqueKeysAppend(users, u, UserIdOf);
      users := users + [u];
      nextId := nextId + 1;
    }

    /** `/favorite` behind the gate. Missing title or image (gameId is optional), then an
        existing favorite with this title for the caller; otherwise one favorite owned by
        the caller's id is appended. */
    method PostFavorite(authorization: string, gameId: Field, title: Field, image: Field)
      returns (resp: Response)
      requires Valid()
      modifies this
      ensures Valid()
      ensures users == old(users) && reviews == old(reviews)
      ensures Authenticate(users, authorization).Halt? ==> resp == Unauthorized && unchanged(this)
      ensures var g := Authenticate(users, authorization);
              g.Next? ==>
                if !(Truthy(title) && Truthy(image)) then
                  resp == MissingParameters && unchanged(this)
                else if exists f :: f in old(favorites) && f.title == title.s && f.owner == g.user.id then
                  resp == FavoriteExists && unchanged(this)
                else
                  && favorites == old(favorites) + [Favorite(old(nextId), gameId, title.s, image.s, g.user.id)]
                  && nextId == old(nextId) + 1
                  && resp == FavoriteAdded
      ensures var g := Authenticate(users, authorization);
              g.Next? ==> forall o :: o != g.user.id ==> Filter(favorites, ByOwner(o)) == Filter(old(favorites), ByOwner(o))
    {
      match Authenticate(users, authorization) {
        case Halt(response) =>
          return response;
        case Next(me) =>
          if !Truthy(title) || !Truthy(image) {
            return MissingParameters;
          }
          var existingFav := FindFirst(favorites, ByTitleOwner(title.s, me.id));
          if existingFav.Some? {
            assert favorites[existingFav.value] in favorites;
            return FavoriteExists;
          }
          var newFav := Favorite(nextId, gameId, title.s, image.s, me.id);
          forall o | o != me.id
            ensures Filter(favorites + [newFav], ByOwner(o)) == Filter(favorites, ByOwner(o))
          {
            FilterAppend(favorites, newFav, ByOwner(o));
          }
          UniqueKeysAppend(favorites, newFav, FavoriteKey);
          favorites := favorites + [newFav];
          nextId := nextId + 1;
          resp := FavoriteAdded;
      }
    }

    /** `/deleteFav` behind the gate: the store's `deleteOne` on (title, caller's id). It
        answers 200 whether or not a favorite matched, removes at most one (the first match,
        the rest keeping their order), leaves no match behind (so a second call removes
        nothing), and no other favorite is touched. */
    method DeleteFav(authorization: string, title: string) returns (resp: Response)
      requires Valid()
      modifies this
      ensures Valid()
      ensures users == old(users) && reviews == old(reviews) && nextId == old(nextId)
      ensures Authenticate(users, authorization).Halt? ==> resp == Unauthorized && unchanged(this)
      ensures var g := Authenticate(users, authorization);
              g.Next? ==>
                && resp.status == 200 && resp.body.DeleteResult?
                && resp.body.deletedCount <= 1
                && favorites == DeleteFirst(old(favorites), ByTitleOwner(title, g.user.id)).0
                && resp.body.deletedCount == DeleteFirst(old(favorites), ByTitleOwner(title, g.user.id)).1
                && |favorites| == |old(favorites)| - resp.body.deletedCount
                && (resp.body.deletedCount == 0 <==>
                      forall f :: f in old(favorites) ==> !(f.title == title && f.owner == g.user.id))
                && (resp.body.deletedCount == 0 ==> favorites == old(favorites))
                && (forall f :: f in favorites ==> f in old(favorites))
                && (forall f :: f in favorites ==> !(f.title == title && f.owner == g.user.id))
                && (forall f :: f in old(favorites) && !(f.title == title && f.owner == g.user.id) ==> f in favorites)
      ensures var g := Authenticate(users, authorization);
              g.Next? ==> forall o :: o != g.user.id ==> Filter(favorites, ByOwner(o)) == Filter(old(favorites), ByOwner(o))
    {
      match Authenticate(users, authorization) {
        case Halt(response) =>
          return response;
        case Next(me) =>
          var q := ByTitleOwner(title, me.id);
          var (rest, deletedCount) := DeleteFirst(favorites, q);
          FavoriteFilterSelectsOne(favorites, title, me.id);
          DeleteFirstIdempotent(favorites, q);
          UniqueKeysAfterDelete(favorites, q, FavoriteKey);
          forall o | o != me.id
            ensures Filter(rest, ByOwner(o)) == Filter(favorites, ByOwner(o))
          {
            FilterAfterDelete(favorites, q, ByOwner(o));
          }
          favorites := rest;
          resp := Response(200, DeleteResult(deletedCount));
      }
    }

    /** `/review` behind the gate. Missing review, title or gameId, then an existing review
        of this game by the caller's username; otherwise one review owned by the username
        (not the id) and dated `now` is appended. */
    method PostReview(authorization: string, gameId: Field, title: Field, review: Field, now: int)
      returns (resp: Response)
      requires Valid()
      modifies this
      ensures Valid()
      ensures users == old(users) && favorites == old(favorites)
      ensures Authenticate(users, authorization).Halt? ==> resp == Unauthorized && unchanged(this)
      ensures var g := Authenticate(users, authorization);
              g.Next? ==>
                if !(Truthy(review) && Truthy(title) && Truthy(gameId)) then
                  resp == MissingParameters && unchanged(this)
                else if exists r :: r in old(reviews) && r.gameId == gameId.s && r.owner == g.user.username then
                  resp == ReviewExists && unchanged(this)
                else
                  && reviews == old(reviews) + [Review(old(nextId), gameId.s, title.s, review.s, g.user.username, now)]
                  && nextId == old(nextId) + 1
                  && resp == ReviewAdded
    {
      match Authenticate(users, authorization) {
        case Halt(response) =>
          return response;
        case Next(me) =>
          if !Truthy(review) || !Truthy(title) || !Truthy(gameId) {
            return MissingParameters;
          }
          var existing := FindFirst(reviews, ByGameOwner(gameId.s, me.username));
          if existing.Some? {
            assert reviews[existing.value] in reviews;
            return ReviewExists;
          }
          var newReview := Review(nextId, gameId.s, title.s, review.s, me.username, now);
          UniqueKeysAppend(reviews, newReview, ReviewKey);
          reviews := reviews + [newReview];
          nextId := nextId + 1;
          resp := ReviewAdded;
      }
    }
  }

  /** `/favoritesOfUser` behind the gate: every favorite whose owner is the caller's id.
      `find` always yields an array, which is truthy, so the 401 "No Favorites" branch is
      never taken: an empty list is answered 200. */
  function FavoritesOfUser(users: seq<User>, favorites: seq<Favorite>, authorization: string): (r: Response)
    ensures Authenticate(users, authorization).Halt? ==> r == Unauthorized
    ensures var g := Authenticate(users, authorization);
            g.Next? ==>
              && r.status == 200 && r.body.FavoriteList?
              && forall f :: multiset(r.body.favorites)[f] == if f.owner == g.user.id then multiset(favorites)[f] else 0
  {
    match Authenticate(users, authorization)
    case Halt(response) => response
    case Next(me) => Response(200, FavoriteList(Filter(favorites, ByOwner(me.id))))
  }

  /** `/reviews`: every review of the game named by the query parameter, always with 200
      (the 400 "no reviews" branch is never taken, for the same reason as above). */
  function ReviewsOfGame(reviews: seq<Review>, gameId: string): (r: Response)
    ensures r.status == 200 && r.body.ReviewList?
    ensures forall x :: multiset(r.body.reviews)[x] == if x.gameId == gameId then multiset(reviews)[x] else 0
  {
    Response(200, ReviewList(Filter(reviews, ByGame(gameId))))
  }

  /** A new account logs in with the same id, token and username, and its favorites list
      starts empty with status 200. */
  method SignupLoginScenario(hasher: string -> string) returns (signedUp: Response, loggedIn: Response, listed: Response)
    ensures signedUp == Response(201, Account(0, "t1", "a"))
    ensures loggedIn == Response(200, Account(0, "t1", "a"))
    ensures listed == Response(200, FavoriteList([]))
  {
    var alice := User(0, "a@x.com", "a", "t1", "s1", hasher("p" + "s1"));
    var store := new Store(hasher);
    signedUp := store.Signup(Text("a"), Text("a@x.com"), Text("p"), "s1", "t1");
    assert store.users == [] + [alice];
    LoginAfterSignup([], hasher, alice, "p");
    loggedIn := Login(store.users, store.hasher, Text("a@x.com"), Text("p"));
    AuthenticateFreshToken([], alice);
    listed := FavoritesOfUser(store.users, store.favorites, BearerPrefix + "t1");
  }

  /** A client of any valid store: a successful signup is followed by a login with the same
      email and password, which answers 200 with the id, token and username signup returned. */
  method SignupThenLogin(store: Store, username: string, email: string, password: string, salt: string, token: string)
    returns (signedUp: Response, loggedIn: Response)
    requires store.Valid()
    modifies store
    ensures store.Valid()
    ensures signedUp.status == 201 ==> loggedIn == Response(200, signedUp.body)
  {
    var before := store.users;
    signedUp := store.Signup(Text(username), Text(email), Text(password), salt, token);
    if signedUp.status == 201 {
      var u := User(store.nextId - 1, email, username, token, salt, store.hasher(password + salt));
      LoginAfterSignup(before, store.hasher, u, password);
    }
    loggedIn := Login(store.users, store.hasher, Text(email), Text(password));
  }

  /** A client of any valid store: after a successful signup with a token no account holds,
      the gate recognises the `Bearer` header of that token as the new account. */
  method SignupThenGate(store: Store, username: string, email: string, password: string, salt: string, token: string)
    returns (signedUp: Response, gate: Gate)
    requires store.Valid()
    requires forall v :: v in store.users ==> v.token != token
    modifies store
    ensures store.Valid()
    ensures signedUp.status == 201 ==>
              signedUp.body.Account? && gate == Next(PublicUser(signedUp.body.id, email, username, token))
  {
    var before := store.users;
    signedUp := store.Signup(Text(username), Text(email), Text(password), salt, token);
    if signedUp.status == 201 {
      var u := User(store.nextId - 1, email, username, token, salt, store.hasher(password + salt));
      AuthenticateFreshToken(before, u);
    }
    gate := Authenticate(store.users, BearerPrefix + token);
  }

  /** A client of any valid store: adding the same favorite twice, the second add is refused. */
  method PostFavoriteTwice(store: Store, authorization: string, gameId: Field, title: Field, image: Field)
    returns (first: Response, second: Response)
    requires store.Valid()
    modifies store
    ensures store.Valid()
    ensures first == FavoriteAdded ==> second == FavoriteExists
  {
    first := store.PostFavorite(authorization, gameId, title, image);
    if first == FavoriteAdded {
      assert store.favorites[|store.favorites| - 1] in store.favorites;
    }
    second := store.PostFavorite(authorization, gameId, title, image);
  }

  /** A client of any valid store: deleting the same favorite twice, the second call removes
      nothing and the favorites stay as the first call left them. */
  method DeleteFavTwice(store: Store, authorization: string, title: string)
    returns (first: Response, second: Response)
    requires store.Valid()
    modifies store
    ensures store.Valid()
    ensures Authenticate(store.users, authorization).Next? ==> second == Response(200, DeleteResult(0))
  {
    first := store.DeleteFav(authorization, title);
    second := store.DeleteFav(authorization, title);
  }
}
