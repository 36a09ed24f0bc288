/** The filter documents the routes pass to the store, and the keys the routes keep unique.
    Each filter is a function returning a predicate, so that two uses of the same filter
    with the same arguments denote the same predicate. */
module Queries {
  import opened Records
  import opened Collection

  /** `{ email }` on the user table. */
  function ByEmail(email: string): User -> bool { (u: User) => u.email == email }

  /** `{ username }` on the user table. */
  function ByUsername(username: string): User -> bool { (u: User) => u.username == username }

  /** `{ token }` on the user table. */
  function ByToken(token: string): User -> bool { (u: User) => u.token == token }

  /** `{ title, owner }` on the favorite table. */
  function ByTitleOwner(title: string, owner: nat): Favorite -> bool { (f: Favorite) => f.title == title && f.owner == owner }

  /** `{ owner }` on the favorite table. */
  function ByOwner(owner: nat): Favorite -> bool { (f: Favorite) => f.owner == owner }

  /** `{ gameId, owner }` on the review table. */
  function ByGameOwner(gameId: string, owner: string): Review -> bool { (r: Review) => r.gameId == gameId && r.owner == owner }

  /** `{ gameId }` on the review table. */
  function ByGame(gameId: string): Review -> bool { (r: Review) => r.gameId == gameId }

  function EmailOf(u: User): string { u.email }
  function UsernameOf(u: User): string { u.username }
  function UserIdOf(u: User): nat { u.id }
  function FavoriteKey(f: Favorite): (string, nat) { (f.title, f.owner) }
  function ReviewKey(r: Review): (string, string) { (r.gameId, r.owner) }

  /** With (title, owner) unique, one favorite at most answers a `{ title, owner }` filter. */
  lemma FavoriteFilterSelectsOne(favorites: seq<Favorite>, title: string, owner: nat)
    requires UniqueKeys(favorites, FavoriteKey)
    ensures AtMostOne(favorites, ByTitleOwner(title, owner))
  {
    UniqueKeysAtMostOne(favorites, FavoriteKey, ByTitleOwner(title, owner));
  }
}
