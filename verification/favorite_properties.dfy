/** What the favorite registry promises across requests: add and remove
    toggle one triple, a second identical add fails, and at most one row per
    (user, kind, target) triple survives any sequence of requests. */
module FavoriteProperties {
  import opened Keys
  import opened Schema
  import opened Replies
  import opened Favorites

  /** Adding and then removing the same favorite answers with the row just
      added and gives back the store from before the add. */
  lemma AddThenRemoveRestores(s: Store, userId: Id, t: Target)
    requires AddFavorite(s, userId, t).result.Ok?
    ensures var added := AddFavorite(s, userId, t);
      RemoveFavorite(added.store, userId, t) == Step(Ok(added.result.value), s)
  {
    var added := AddFavorite(s, userId, t);
    var id := added.result.value;
    var f := Favorite(userId, t);
    var favs := added.store.favorites;
    assert Rows(favs, f) == {id} by {
      forall k | k in favs && k != id ensures favs[k] != f {
        assert favs[k] == s.favorites[k];
      }
    }
    assert favs - {id} == s.favorites;
  }

  /** A second identical add fails as already favorited and changes nothing. */
  lemma AddTwiceFails(s: Store, userId: Id, t: Target)
    requires AddFavorite(s, userId, t).result.Ok?
    ensures var s1 := AddFavorite(s, userId, t).store;
      AddFavorite(s1, userId, t) == Step(Err(AlreadyFavorited(t.kind)), s1)
  {
    var r := AddFavorite(s, userId, t);
    assert r.store.favorites[r.result.value] == Favorite(userId, t);
  }

  /** After an add, the user's favorite listing holds the new row. */
  lemma ListedAfterAdd(s: Store, userId: Id, t: Target)
    requires AddFavorite(s, userId, t).result.Ok?
    ensures var r := AddFavorite(s, userId, t);
      var listed := ListFavorites(r.store, userId);
      && listed.Ok?
      && r.result.value in listed.value
      && listed.value[r.result.value] == Favorite(userId, t)
  {
  }

  /** Add never creates a second row for a triple. */
  lemma AddKeepsAtMostOne(s: Store, userId: Id, t: Target)
    requires AtMostOne(s.favorites)
    ensures AtMostOne(AddFavorite(s, userId, t).store.favorites)
  {
    var r := AddFavorite(s, userId, t);
    if r.result.Ok? {
      var favs := r.store.favorites;
      var id := r.result.value;
      forall k | k in favs && k != id ensures favs[k] != favs[id] {
        assert favs[k] == s.favorites[k];
      }
    }
  }

  /** Remove deletes a row, so it keeps the invariant. */
  lemma RemoveKeepsAtMostOne(s: Store, userId: Id, t: Target)
    requires AtMostOne(s.favorites)
    ensures AtMostOne(RemoveFavorite(s, userId, t).store.favorites)
  {
  }

  /** Under the invariant, a successful remove leaves the triple unfavorited,
      so a second remove fails. */
  lemma RemoveClears(s: Store, userId: Id, t: Target)
    requires AtMostOne(s.favorites)
    requires RemoveFavorite(s, userId, t).result.Ok?
    ensures var s1 := RemoveFavorite(s, userId, t).store;
      && !Favorited(s1.favorites, Favorite(userId, t))
      && RemoveFavorite(s1, userId, t) == Step(Err(NotFavorited(t.kind)), s1)
  {
    var r := RemoveFavorite(s, userId, t);
    var id := r.result.value;
    var favs := r.store.favorites;
    forall k | k in favs ensures favs[k] != Favorite(userId, t) {
      assert k != id && favs[k] == s.favorites[k];
    }
  }

  /** Removing by (user, kind, target) deletes the same row a delete by that
      row's id would. */
  lemma RemoveIsDeleteOfMatch(s: Store, userId: Id, t: Target)
    requires RemoveFavorite(s, userId, t).result.Ok?
    ensures var r := RemoveFavorite(s, userId, t);
      DeleteFavorite(s, r.result.value) == Step(Ok(()), r.store)
  {
  }
}
