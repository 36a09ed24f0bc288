/** The three record shapes of the GamePad backend (users, favorites, reviews),
    the request fields they are built from, and the HTTP responses the routes send. */
module Records {

  datatype Option<T> = None | Some(value: T)

  /** A request-body field after JSON parsing: missing (`undefined`) or a string. */
  datatype Field = Absent | Text(s: string)

  /** JavaScript truthiness of a field: `undefined` and the empty string are falsy. */
  predicate Truthy(f: Field)
  {
    f.Text? && f.s != ""
  }

  /** A stored account. `id` stands for the document's `_id`; `hash` is the digest of password + salt. */
  datatype User = User(id: nat, email: string, username: string, token: string, salt: string, hash: string)

  /** What the authentication gate attaches to the request: the account without salt and hash. */
  datatype PublicUser = PublicUser(id: nat, email: string, username: string, token: string)

  function Public(u: User): PublicUser
  {
    PublicUser(u.id, u.email, u.username, u.token)
  }

  /** A saved game; `gameId` is optional, `owner` is the `_id` of the owning account. */
  datatype Favorite = Favorite(id: nat, gameId: Field, title: string, image: string, owner: nat)

  /** A review; `owner` is the author's username (not the account id), `date` the creation time. */
  datatype Review = Review(id: nat, gameId: string, title: string, review: string, owner: string, date: int)

  /** The JSON bodies the routes send. */
  datatype Body =
    | Error(error: string)                                  // { error: ... }
    | Message(message: string)                              // { message: ... }
    | Account(id: nat, token: string, username: string)     // { _id, token, username }
    | FavoriteList(favorites: seq<Favorite>)
    | ReviewList(reviews: seq<Review>)
    | DeleteResult(deletedCount: nat)                       // deleteOne's summary; only its deletedCount
    | JsonString(text: string)                              // a bare JSON string

  datatype Response = Response(status: nat, body: Body)

  const MissingParameters := Response(400, Error("Missing parameters"))
  const EmailUsed := Response(409, Error("email already used"))
  const UsernameUsed := Response(409, Error("username already used"))
  const UnknownEmail := Response(400, Error("email inccorect"))
  const WrongPassword := Response(400, Error("email/mot de passe incorect"))
  const Unauthorized := Response(401, Error("unauthorized"))
  const FavoriteExists := Response(409, Error("Favorite already saved"))
  const FavoriteAdded := Response(200, Message("Game added in Favorites"))
  const ReviewExists := Response(409, Message("error, you already write a review on this game"))
  const ReviewAdded := Response(201, JsonString("Review Successfuly added !"))
}
