# Star Wars REST API: store semantics of the request handlers

This project models the request handlers of a small Flask/SQLAlchemy REST
API over users, people, planets, vehicles and per-user favorites. Each
handler reads rows, applies a few guards in a fixed order, then inserts,
replaces or deletes. In the model the database is an immutable `Store` with
one map from id to row per table. Every mutating handler is a pure function
`(Store, arguments) -> Step(result, store')`.

Modules, one per component:

- `Keys` (keys.dfy) covers ids. `Least` is the row the model takes for a
  filtered `.first()`: the matching row with the lowest id. `FreshId` is the id an insert
  gives its new row: one past the largest id, as SQLite assigns rowids.
- `Schema` (schema.dfy) holds the rows and the store. People, planets and
  vehicles are the three constructors of one `Item` type. Each constructor
  carries a `name`. A `Kind` tag selects the catalogue table. A favorite
  points at a `Target(kind, id)`. This pair replaces the source's three
  nullable foreign-key columns.
- `Replies` (replies.dfy) lists every failure answer, with the HTTP status
  (`FailureStatus`) and the exact `msg` text (`Message`) the source sends.
- `Accounts`, `Catalog` and `Favorites` hold the handlers. `Api` lists the
  mutating requests and replays a sequence of them.
- `AccountProperties`, `CatalogProperties`, `FavoriteProperties` and
  `Invariants` hold the lemmas relating several requests.

## Model

| member | source | states |
|---|---|---|
| Keys.Least | src/app.py:81 | the id picked among several matching rows is one of them and no larger than any of them; the model's reading of `.first()` on an unordered query |
| Keys.FreshId | src/app.py:60-62 | the id a new row receives is not already in its table and exceeds every id in it |
| Replies.FailureStatus | src/app.py:69-88 | every failure answers 400, except an unknown username or token user (404) and a wrong password (401) |
| Replies.Message | src/app.py:556-573 | the `msg` text of each failure, one literal per failure and kind, as the handlers write them (people, vehicles and the account and by-id routes use the same literals at their own lines) |
| Accounts.Signup | src/app.py:55-72 | fails with "User exist in the system" and leaves the store unchanged exactly when the email or the username is already registered; otherwise adds exactly one user, under a fresh id, with the given fields, and changes no other table |
| Accounts.Login | src/app.py:78-97 | 404 exactly when no user has the username; the only failures are 404 and 401; on success the token carries the id of a user whose username and password both match, and the body holds that user |
| Accounts.Private | src/app.py:101-117 | succeeds exactly when the token's user still exists, answering that user; otherwise 404 "User does not exist" |
| Accounts.GetUser | src/app.py:136-147 | answers the user stored under the id, or "Usuario no existe" when there is none |
| Accounts.DeleteUser | src/app.py:151-167 | on a present id removes exactly that user and nothing else; on an absent id fails with "Usuario no existe" and the store unchanged |
| Accounts.PutUser | src/app.py:171-194 | on a present id replaces all five fields of that user, keeps every other row and table; on an absent id fails with the store unchanged |
| Catalog.GetItem | src/app.py:208-220 | answers the row of the given table under the id, or the table's "no existe" failure (people; planets at 307-319 are the same) |
| Catalog.CreateItem | src/app.py:274-293 | fails with the table's "ya existe" failure and the store unchanged exactly when the name is in the record's table; otherwise adds exactly one row, under a fresh id, to that table only (planets at 342-361 and vehicles at 441-460 are the same) |
| Catalog.PutItem | src/app.py:243-271 | on a present id replaces every field of that one row and leaves the other rows and tables untouched; on an absent id fails with the store unchanged (planets at 363-392, vehicles at 463-493) |
| Catalog.DeleteItem | src/app.py:223-240 | on a present id removes exactly that row of that table; on an absent id fails with the store unchanged (planets at 322-339, vehicles at 421-438) |
| Favorites.ListFavorites | src/app.py:526-544 | fails when the user is absent; otherwise answers exactly the favorite rows whose user is that user, of every kind |
| Favorites.AddFavorite | src/app.py:549-582 | checks user, then target, then "already favorited", each failure leaving the store unchanged; succeeds exactly when all three pass and then inserts exactly one row (people at 587-620, vehicles at 624-657) |
| Favorites.RemoveFavorite | src/app.py:660-691 | the same first two checks, then "no longer favorited" when no matching row exists; otherwise deletes one matching row and nothing else (people at 696-727, vehicles at 731-762) |
| Favorites.DeleteFavorite | src/app.py:506-523 | on a present id removes exactly that favorite row; otherwise fails with "Favoritos no existe" and the store unchanged |
| AccountProperties.SignupKeepsAccountsUnique | src/app.py:55-62 | if no two users share an email or a username before a signup, none do after it |
| AccountProperties.SignupTwiceFails | src/app.py:55-72 | repeating a successful signup fails and changes nothing |
| AccountProperties.PutUserCanDuplicateEmail | src/app.py:174-181 | a concrete update that gives one user another user's email: update does not keep the uniqueness signup keeps |
| AccountProperties.LoginMatchesCredentials | src/app.py:81-90 | with unique usernames, login succeeds exactly when some user has both the username and the password, with that user's id in the token; a known username with a failing login is a 401 |
| AccountProperties.SignupThenLogin | src/app.py:55-117 | after a successful signup, login with the same username and password succeeds with the new id, and the token opens the private route as the new user |
| AccountProperties.DeleteThenGetUser | src/app.py:136-167 | after a delete, get fails, a token for that id no longer opens the private route, and the user table is one row shorter |
| CatalogProperties.CreateKeepsNamesUnique | src/app.py:346-361 | if the names of a table are unique before a create, they are unique after it |
| CatalogProperties.CreateTwiceFails | src/app.py:445-460 | repeating a successful create fails with the name taken and changes nothing |
| CatalogProperties.CreateThenGet | src/app.py:274-319 | a created row is read back by the id it was given; for vehicles this is the model's lookup, since GET /vehicles/<id> (src/app.py:406-418) never reads a row back |
| CatalogProperties.PutItemCanDuplicateName | src/app.py:368-379 | a concrete update that renames one planet to another planet's name: update does not keep the uniqueness create keeps |
| CatalogProperties.DeleteThenGetItem | src/app.py:322-339 | after a delete, get fails with not-found; that table loses one row and every other table keeps its size; for vehicles the get is the model's lookup, not a route the API answers |
| FavoriteProperties.AddThenRemoveRestores | src/app.py:549-691 | add followed by remove of the same triple answers with the row just added and gives back the exact store from before the add |
| FavoriteProperties.AddTwiceFails | src/app.py:567-573 | a second identical add fails as already favorited and changes nothing |
| FavoriteProperties.ListedAfterAdd | src/app.py:526-582 | after an add, the user's favorite listing holds the new row |
| FavoriteProperties.AddKeepsAtMostOne | src/app.py:567-577 | add keeps at most one favorite row per (user, kind, target) |
| FavoriteProperties.RemoveKeepsAtMostOne | src/app.py:677-686 | remove keeps at most one favorite row per (user, kind, target) |
| FavoriteProperties.RemoveClears | src/app.py:677-691 | with at most one row per triple, a successful remove leaves the triple unfavorited, so a second remove fails |
| FavoriteProperties.RemoveIsDeleteOfMatch | src/app.py:506-523 | remove by triple changes the store exactly as delete by the matched row's id does |
| Api.Apply | src/app.py:51-762 | serves one mutating request; a request outside the account routes leaves the user table as it was, and one outside the favorite routes leaves the favorite table as it was |
| Api.Run | src/app.py:51-762 | serves requests one after another, in order; with no account request in the batch the user table is unchanged, and with no favorite request the favorite table is unchanged |
| Api.RunAppend | src/app.py:51-762 | serving two batches one after the other equals serving their concatenation |
| Invariants.ApplyKeepsWellTyped | src/app.py:274-493 | every request keeps each catalogue table holding only records of its own shape |
| Invariants.ApplyKeepsAtMostOne | src/app.py:549-762 | every request, updates included, keeps at most one favorite row per triple |
| Invariants.ApplyKeepsUniqueAccounts | src/app.py:55-72 | every request other than PUT /users keeps emails and usernames unique; the catalogue updates never write the user table |
| Invariants.ApplyKeepsUniqueNames | src/app.py:278-293 | every request other than a catalogue PUT keeps names unique within each catalogue table; PUT /users never writes a catalogue table |
| Invariants.ApplyKeepsValid | src/app.py:51-762 | every request other than an update keeps the whole store invariant |
| Invariants.RunKeepsAtMostOne | src/app.py:549-762 | any sequence of requests keeps at most one favorite row per (user, kind, target) |
| Invariants.RunKeepsValid | src/app.py:51-762 | any sequence of requests without updates keeps the whole store invariant |
| Invariants.RunKeepsUniqueAccounts | src/app.py:51-194 | any sequence of requests without PUT /users keeps emails and usernames unique |
| Invariants.RunKeepsUniqueNames | src/app.py:243-493 | any sequence of requests without a catalogue PUT keeps names unique within each catalogue table |

Notes on the code as modelled:

- Login filters users by username and takes the first row. It then checks
  the username again, which always passes, and then the password. The model
  keeps both checks.
- PUT does not re-check names, emails or usernames. So the uniqueness
  invariant is proved for every request except the two update routes. The
  two `...CanDuplicate...` lemmas show a concrete update that breaks it in
  the store as modelled, which enforces no column constraints (see
  "## Left out").
- Login and remove favorite take `.first()` of a query with no ordering
  (src/app.py:81, 678, 714, 749), so the database may hand back any matching
  row. The model chooses the matching row with the lowest id. When at most
  one row matches, which every request sequence guarantees for favorites and
  every sequence without PUT /users guarantees for usernames, the choice makes
  no difference.
- The source uses status 400 for both "not found" and "conflict", 404 for an
  unknown username or token user, and 401 for a wrong password.
  `FailureStatus` follows the code.

## Left out

- HTTP routing, JSON parsing of request bodies and `jsonify` responses. Bodies are assumed to hold every field. A missing field makes the source raise a `KeyError`, which is not modelled.
- Bodies of successful answers: the mutating handlers answer the new row's id (signup, create, add favorite), the removed row's id (remove favorite) or nothing. The read routes (login, the private route, the gets and the favorite listing) answer the stored record in place of its `serialize()` JSON. `serialize()` lives in `models.py`, which is not part of this model. The handlers' success `msg` literals (for example src/app.py:65, 159, 187, 286, 580 and 689) are not modelled.
- The session, `add`/`commit` and id allocation of the database. They are replaced by immutable maps and `Keys.FreshId` (SQLite rowid behaviour; PostgreSQL sequences never reuse an id, but any fresh id satisfies every property here).
- Database constraints: the store checks no column constraint or foreign key at commit. `models.py` is not part of this model. If it declares unique email, username or name columns, a PUT that copies an existing value would fail at commit and leave the store unchanged. Then `AccountProperties.PutUserCanDuplicateEmail` and `CatalogProperties.PutItemCanDuplicateName` would describe the handlers but not the database. Likewise, a foreign key could refuse a delete of a row that favorites still reference.
- Row order of `.first()`: the source's filtered queries have no `order_by`. The model fixes the row with the lowest id (`Keys.Least`), which the database does not promise. With duplicates, `Accounts.Login` and `Favorites.RemoveFavorite` may pick a different matching row in the source.
- Cascades of a delete to favorites that point at the deleted row live in `models.py`, which is not part of this model. The model leaves such favorites in place.
- JWT signing, expiry and verification: the token is an opaque `Token(identity)`. A missing, expired, malformed or badly signed token on the private route is not modelled; the library answers it itself, with 401 or 422.
- `request.json.get(..., None)` in login can pass `None` as the username or password. The model takes both as strings.
- The list-all routes (`GET /users`, `/people`, `/planets`, `/vehicles`, `/favorite`) return every row of a table, with no guard or state change.
- `GET /vehicles/<id>` (src/app.py:406-418) tests and serialises an undefined variable `planet`, so it cannot answer normally. It is not modelled. `Catalog.GetItem` with kind `Vehicles` describes a lookup the source does not perform.
- Column types: attribute columns the handlers only copy are strings, and `planet_id` of a person is an optional id. It is not checked against the planet table, as in the source.
- Concurrency: two identical add-favorite requests running at once can both pass the duplicate check. The model is sequential.
- Application setup, CORS, the admin panel, the sitemap and the `__main__` entry point are configuration only. The schema migration file carries no logic.
