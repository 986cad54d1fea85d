/** The favorite registry: for each (user, kind, target) triple a favorite
    is either absent or present. Add and remove check, in this order, that
    the user exists, that the target row exists, and that the favorite is
    absent (add) or present (remove). */
module Favorites {
  import opened Keys
  import opened Schema
  import opened Replies

  /** The ids of the favorite rows recording exactly `f`. */
  function Rows(favs: map<Id, Favorite>, f: Favorite): set<Id> {
    set k | k in favs && favs[k] == f
  }

  /** Some favorite row records `f`. */
  predicate Favorited(favs: map<Id, Favorite>, f: Favorite) {
    exists k :: k in favs && favs[k] == f
  }

  /** At most one favorite row per (user, kind, target) triple. */
  ghost predicate AtMostOne(favs: map<Id, Favorite>) {
    forall i, j :: i in favs && j in favs && favs[i] == favs[j] ==> i == j
  }

  /** GET /users/<id>/favorite: every favorite row of that user, of all three
      kinds, and nothing else; fails when the user does not exist. */
  function ListFavorites(s: Store, userId: Id): (r: Result<map<Id, Favorite>>)
    ensures r.Ok? <==> userId in s.users
    ensures r.Err? ==> r.failure == NoSuchUser
    ensures r.Ok? ==>
      && (forall k :: k in r.value <==> k in s.favorites && s.favorites[k].userId == userId)
      && (forall k :: k in r.value ==> r.value[k] == s.favorites[k])
  {
    if userId in s.users then
      Ok(map k | k in s.favorites && s.favorites[k].userId == userId :: s.favorites[k])
    else Err(NoSuchUser)
  }

  /** POST /users/<id>/favorite/{planet,people,vehicle}: the three checks in
      the handler's order, then exactly one new row; every failure leaves the store
      unchanged. */
  function AddFavorite(s: Store, userId: Id, t: Target): (r: Step<Id>)
    ensures userId !in s.users ==> r == Step(Err(NoSuchUser), s)
    ensures userId in s.users && t.id !in s.Table(t.kind) ==>
      r == Step(Err(TargetMissing(t.kind)), s)
    ensures userId in s.users && t.id in s.Table(t.kind) && Favorited(s.favorites, Favorite(userId, t)) ==>
      r == Step(Err(AlreadyFavorited(t.kind)), s)
    ensures r.result.Ok? <==>
      userId in s.users && t.id in s.Table(t.kind) && !Favorited(s.favorites, Favorite(userId, t))
    ensures r.result.Ok? ==>
      && r.result.value !in s.favorites
      && r.store == s.(favorites := s.favorites[r.result.value := Favorite(userId, t)])
  {
    if userId !in s.users then Step(Err(NoSuchUser), s)
    else if t.id !in s.Table(t.kind) then Step(Err(TargetMissing(t.kind)), s)
    else if Rows(s.favorites, Favorite(userId, t)) != {} then
      Step(Err(AlreadyFavorited(t.kind)), s)
    else
      assert forall k :: k in s.favorites && s.favorites[k] == Favorite(userId, t) ==>
        k in Rows(s.favorites, Favorite(userId, t));
      var id := FreshId(s.favorites);
      Step(Ok(id), s.(favorites := s.favorites[id := Favorite(userId, t)]))
  }

  /** DELETE /users/<id>/favorite/{planet,people,vehicle}: the same first two
      checks, then a failure when the favorite is absent; otherwise deletes
      the first matching row, which it returns, and nothing else. */
  function RemoveFavorite(s: Store, userId: Id, t: Target): (r: Step<Id>)
    ensures userId !in s.users ==> r == Step(Err(NoSuchUser), s)
    ensures userId in s.users && t.id !in s.Table(t.kind) ==>
      r == Step(Err(TargetMissing(t.kind)), s)
    ensures userId in s.users && t.id in s.Table(t.kind) && !Favorited(s.favorites, Favorite(userId, t)) ==>
      r == Step(Err(NotFavorited(t.kind)), s)
    ensures r.result.Ok? <==>
      userId in s.users && t.id in s.Table(t.kind) && Favorited(s.favorites, Favorite(userId, t))
    ensures r.result.Ok? ==>
      var id := r.result.value;
      && id in s.favorites
      && s.favorites[id] == Favorite(userId, t)
      && r.store == s.(favorites := s.favorites - {id})
  {
    if userId !in s.users then Step(Err(NoSuchUser), s)
    else if t.id !in s.Table(t.kind) then Step(Err(TargetMissing(t.kind)), s)
    else
      var rows := Rows(s.favorites, Favorite(userId, t));
      if rows == {} then
        assert forall k :: k in s.favorites && s.favorites[k] == Favorite(userId, t) ==> k in rows;
        Step(Err(NotFavorited(t.kind)), s)
      else
        var id := Least(rows);
        Step(Ok(id), s.(favorites := s.favorites - {id}))
  }

  /** DELETE /favorite/<id>: removes exactly that row, or fails with the
      store unchanged. */
  function DeleteFavorite(s: Store, id: Id): (r: Step<()>)
    ensures r.result.Ok? <==> id in s.favorites
    ensures r.result.Err? ==> r.result.failure == NoSuchFavorite && r.store == s
    ensures r.result.Ok? ==>
      && r.store.favorites.Keys == s.favorites.Keys - {id}
      && (forall k :: k in r.store.favorites ==> r.store.favorites[k] == s.favorites[k])
      && r.store == s.(favorites := r.store.favorites)
  {
    if id in s.favorites then Step(Ok(()), s.(favorites := s.favorites - {id}))
    else Step(Err(NoSuchFavorite), s)
  }
}
