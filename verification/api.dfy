/** The requests that change the store, one per mutating route, and their
    sequential replay. The read-only routes (login, the private route, the
    gets and the favorite listing) never change the store. */
module Api {
  import opened Keys
  import opened Schema
  import opened Replies
  import Accounts
  import Catalog
  import Favorites

  datatype Request =
    | Signup(user: User)
    | PutUser(id: Id, user: User)
    | DeleteUser(id: Id)
    | CreateItem(item: Item)
    | PutItem(id: Id, item: Item)
    | DeleteItem(kind: Kind, id: Id)
    | AddFavorite(userId: Id, target: Target)
    | RemoveFavorite(userId: Id, target: Target)
    | DeleteFavorite(id: Id)
  {
    /** The two update routes: the only requests that skip the natural-key
        checks. */
    predicate IsUpdate() {
      PutUser? || PutItem?
    }

    /** The account routes: the only requests that write the user table. */
    predicate OnUsers() {
      Signup? || PutUser? || DeleteUser?
    }

    /** The favorite routes: the only requests that write the favorite
        table. */
    predicate OnFavorites() {
      AddFavorite? || RemoveFavorite? || DeleteFavorite?
    }
  }

  /** The store one request leaves behind, whatever it answers. */
  function Apply(s: Store, req: Request): (s': Store)
    ensures !req.OnUsers() ==> s'.users == s.users
    ensures !req.OnFavorites() ==> s'.favorites == s.favorites
  {
    match req
    case Signup(u) => Accounts.Signup(s, u).store
    case PutUser(id, u) => Accounts.PutUser(s, id, u).store
    case DeleteUser(id) => Accounts.DeleteUser(s, id).store
    case CreateItem(item) => Catalog.CreateItem(s, item).store
    case PutItem(id, item) => Catalog.PutItem(s, id, item).store
    case DeleteItem(k, id) => Catalog.DeleteItem(s, k, id).store
    case AddFavorite(u, t) => Favorites.AddFavorite(s, u, t).store
    case RemoveFavorite(u, t) => Favorites.RemoveFavorite(s, u, t).store
    case DeleteFavorite(id) => Favorites.DeleteFavorite(s, id).store
  }

  /** The store after the requests are served one after another. */
  function Run(s: Store, reqs: seq<Request>): (s': Store)
    ensures (forall i :: 0 <= i < |reqs| ==> !reqs[i].OnUsers()) ==> s'.users == s.users
    ensures (forall i :: 0 <= i < |reqs| ==> !reqs[i].OnFavorites()) ==> s'.favorites == s.favorites
    decreases |reqs|
  {
    if reqs == [] then s else Run(Apply(s, reqs[0]), reqs[1..])
  }

  /** Serving two batches one after the other is serving their
      concatenation. */
  lemma {:induction false} RunAppend(s: Store, a: seq<Request>, b: seq<Request>)
    ensures Run(s, a + b) == Run(Run(s, a), b)
    decreases |a|
  {
    if a != [] {
      assert (a + b)[0] == a[0];
      assert (a + b)[1..] == a[1..] + b;
      RunAppend(Apply(s, a[0]), a[1..], b);
    } else {
      assert a + b == b;
    }
  }
}
