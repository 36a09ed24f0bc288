# GamePad backend: accounts, favorites and reviews

This project models the route handlers of the GamePad backend (`index.js`). The backend
keeps three tables: accounts, saved favorite games and game reviews. Each route
validates its request fields, checks a uniqueness rule, and then inserts, deletes or
queries. It answers with an HTTP status and a JSON body.

The model has five modules:

- `Records` (records.dfy): the three record shapes, and request fields that can be missing
  (`Field`). JavaScript truthiness is `Truthy`, so a missing field and `""` both count as
  missing. It also holds the responses the routes send, with their exact status codes and
  texts.
- `Collection` (collection.dfy): the document-store operations the routes use, over a table
  held as a sequence in insertion order.
  - `findOne` is `FindFirst`.
  - `find` is `Filter`.
  - `deleteOne` is `DeleteFirst`.
  - There are lemmas about appending to a table, deleting from it, and keeping keys unique.
- `Queries` (queries.dfy): the filter documents the routes pass (`{ email }`,
  `{ title, owner }`, ...) and the keys the routes keep unique.
- `Auth` (auth.dfy):
  - the `isAuthenticated` gate, which removes the first `"Bearer "` from the header, as
    JavaScript `replace` with a string pattern does, then finds the first account holding
    the token;
  - `/login`, which is a pure function of the account table;
  - the signup→login and signup→gate round trips.
- `Server` (server.dfy): the class `Store` holds the three tables and one counter for fresh
  document ids.
  - The routes that write (`/signup`, `/favorite`, `/deleteFav`, `/review`) are methods
    with `modifies this`. Each states its error precedence and its whole new state, and
    each keeps the invariant `Valid`: emails, usernames and ids unique, (title, owner)
    unique among favorites, (gameId, owner) unique among reviews, and every id below the
    counter.
  - The routes that only read (`/favoritesOfUser`, `/reviews`) are functions of the
    tables.
  - A protected route takes the `Authorization` header and runs the gate before its
    handler.

Modelling choices for the parts outside the handlers:

- The SHA-256/Base64 digest is the store's `hasher`: a deterministic function fixed when
  the store is constructed, about which nothing else is assumed.
- `uid2` salts and tokens, and `Date.now`, are parameters of the routes.
- Mongo `_id` values come from the counter `nextId`.

## Model

| member | source | states |
|---|---|---|
| Collection.FindFirst | index.js:61 | `findOne`: when it finds something, the position holds a match and no earlier record matches; when it finds nothing, no record matches |
| Collection.Filter | index.js:186 | `find`: the result is no longer than the table, holds exactly the table's matching records, and holds each matching record exactly as many times as the table does and each other record never |
| Collection.DeleteFirst | index.js:202-205 | `deleteOne`: removes at most one record, namely the first match; it removes nothing exactly when nothing matches; the rest is the table without that one position; every non-matching record stays |
| Collection.FindFirstAppend | index.js:61 | appending a record leaves an earlier match as the answer; otherwise the new record is the answer if it matches |
| Collection.FilterConcat | index.js:186 | `find` over two tables placed one after the other is the concatenation of the two results |
| Collection.FilterAppend | index.js:176 | an inserted record joins the end of exactly the queries it satisfies |
| Collection.DeleteFirstIdempotent | index.js:202-206 | when at most one record matches, a second `deleteOne` with the same filter removes nothing |
| Collection.FilterAfterDelete | index.js:202-205 | deleting a record that a query does not select leaves that query's result unchanged |
| Collection.UniqueKeysAppend | index.js:91 | appending a record whose key is new keeps the table's keys unique |
| Collection.UniqueKeysAfterDelete | index.js:202 | deleting keeps the table's keys unique |
| Queries.FavoriteFilterSelectsOne | index.js:159-166 | with (title, owner) unique, at most one favorite answers the `{ title, owner }` filter |
| Auth.IndexFrom | index.js:140 | the leftmost occurrence of the pattern at or after a position, or none |
| Auth.StripBearer | index.js:140 | without `"Bearer "` in the header, the token is the header; otherwise only the first occurrence is cut out, wherever it stands |
| Auth.StripBearerOfHeader | index.js:140 | the header `Bearer <token>` yields exactly the token |
| Auth.Authenticate | index.js:139-152 | 401 "unauthorized" exactly when no account holds the token; otherwise it passes on the first account holding it, without salt and hash |
| Auth.AuthenticateFreshToken | index.js:140-151 | an account whose token no earlier account holds is recognised from its `Bearer` header after it is appended |
| Auth.AuthenticateAfterSignup | index.js:144 | appending an account changes no answer of the gate, unless the header was unknown and the new account holds its token |
| Auth.Login | index.js:104-135 | missing fields → 400 "Missing parameters"; unknown email → 400 "email inccorect"; status is always 200 or 400; a 200 answer carries the id, token and username of a stored account with that email whose hash is the digest of the password and its salt |
| Auth.EmailLookupFinds | index.js:111 | with unique emails, the email lookup finds the account itself |
| Auth.LoginAcceptsStoredAccount | index.js:111-131 | with unique emails, a stored account's own password logs it in with its id, token and username |
| Auth.LoginRejectsHashMismatch | index.js:117-123 | with unique emails, a password whose salted digest differs from the stored hash gets 400 "email/mot de passe incorect" |
| Auth.LoginAfterSignup | index.js:77-131 | round trip: an account appended with a new email and hash H(password + salt) logs in with status 200 and the same id, token and username |
| Auth.LoginAfterOtherSignup | index.js:111 | a signup with another email leaves every login answer unchanged |
| Server.Store.constructor | index.js:21-51 | the store starts with three empty tables, and the counter and invariant are set up |
| Server.Store.Signup | index.js:54-102 | missing fields → 400 and no change; else a used email → 409 "email already used" and no change; else a used username → 409 "username already used" and no change; else exactly one account is appended with the next id and hash H(password + salt); the answer is 201 with id, token and username; favorites and reviews do not change; `Valid` is kept |
| Server.Store.SaveUser | index.js:81-91 | appends the account and advances the id counter, keeping email, username and id unique |
| Server.Store.PostFavorite | index.js:154-181 | 401 and no change without a known token; else missing title or image → 400 (gameId optional); else the caller already has that title → 409; else exactly one favorite owned by the caller's id is appended with status 200; other owners' favorite lists do not change; (title, owner) stays unique |
| Server.FavoritesOfUser | index.js:184-195 | 401 without a known token; otherwise always 200, listing each favorite owned by the caller's id exactly as many times as it is stored and no other favorite (an empty list is 200, too) |
| Server.Store.DeleteFav | index.js:198-210 | 401 and no change without a known token; otherwise always 200; the new table is exactly the old one with the first favorite matching (title, caller's id) removed and the rest in their order, and the deleted count is 1 if one was removed and 0 otherwise; the count is 0 exactly when the caller has no favorite with that title; afterwards no matching favorite remains, so a repetition removes nothing; every other favorite stays, including other users' favorites with the same title; other owners' lists do not change |
| Server.Store.PostReview | index.js:213-240 | 401 and no change without a known token; else missing review, title or gameId → 400; else the caller's username already reviewed the game → 409; else exactly one review is appended, owned by the username (not the id) and dated now, with status 201; the check is per (gameId, username), so other users may review the same game |
| Server.ReviewsOfGame | index.js:242-252 | always 200, listing each review of the requested game exactly as many times as it is stored and no other review |
| Server.SignupLoginScenario | index.js:54-195 | a signup on an empty store answers 201 with id 0; logging in with the same email and password answers 200 with the same id, token and username; the new account's favorites list is 200 and empty |
| Server.SignupThenLogin | index.js:54-135 | on any valid store, a signup that answers 201 is followed by a login with the same email and password that answers 200 with the same id, token and username |
| Server.SignupThenGate | index.js:54-152 | on any valid store, after a signup that answers 201 with a token no account holds, the gate passes that token's `Bearer` header on as the new account |
| Server.PostFavoriteTwice | index.js:154-181 | on any valid store, when a favorite is added, adding it again answers 409 "Favorite already saved" |
| Server.DeleteFavTwice | index.js:198-210 | on any valid store and a known token, deleting the same title a second time answers 200 with a deleted count of 0 |

## Left out

- Express setup, CORS, `express.json`, dotenv, `mongoose.connect`, `app.listen`, the `app.all("*")` fallback and every `console.log`: framework wiring and I/O.
- SHA-256 and Base64: the digest is the uninterpreted, deterministic `hasher`. The model does not claim that every wrong password is refused, because that would need the digest to be injective. It only says that a password whose salted digest differs from the stored hash is refused.
- `uid2` and ObjectId generation: salts and tokens are parameters, and ids come from one counter shared by all tables. Nothing requires tokens to be distinct, because the source does not check that. `Authenticate` takes the first account holding a token.
- `Date.now`: the review route takes the time as a parameter `now`.
- Concurrency: the check-then-insert race windows and the schema-level unique index on email are storage-engine concerns. Only sequential calls are modelled, and there email uniqueness follows from the signup check.
- The `catch` blocks that answer 500, and the review routes' `catch` that logs without answering, cover storage failures, which the in-memory store does not have.
- A missing `Authorization` header makes `replace` throw inside the middleware. The gate is modelled for a present header string only.
- Server.Store.DeleteFav: the title is taken as a string. A missing title would become a Mongoose filter with `title: undefined`, and that query semantics is not modelled.
- Server.ReviewsOfGame: the `gameId` query parameter is taken as a string. A missing parameter is not modelled, for the same reason.
- Request values that are JSON numbers, arrays or objects rather than strings are not modelled. Every present field is a string.
- Server.FavoritesOfUser and Server.ReviewsOfGame: `find` always yields an array, and arrays are truthy. So the 401 "No Favorites" and 400 "no reviews for this game" branches can never be taken, and they have no counterpart in the model.
- Body.DeleteResult: `/deleteFav` sends the whole `deleteOne` summary (`acknowledged` and `deletedCount`). The model keeps only the deleted count, because the in-memory store always acknowledges.
- Multi-call scenarios: two users reviewing one game is not written out as a client method. The contract of `PostReview` states it, because its check is per (gameId, username).
