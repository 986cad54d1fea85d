/** The store invariant the guarded routes keep: catalogue tables hold rows of
    their own shape, emails, usernames and names are unique, and each
    (user, kind, target) triple has at most one favorite row. Every request
    keeps the shape and favorite parts; only the two update routes can break
    the uniqueness of natural keys. */
module Invariants {
  import opened Keys
  import opened Schema
  import opened Replies
  import opened Api
  import Accounts
  import Catalog
  import Favorites
  import AccountProperties
  import CatalogProperties
  import FavoriteProperties

  ghost predicate Valid(s: Store) {
    && WellTyped(s)
    && Accounts.UniqueAccounts(s.users)
    && (forall k :: Catalog.UniqueNames(s.Table(k)))
    && Favorites.AtMostOne(s.favorites)
  }

  /** The database starts out empty, and the empty store is valid. */
  lemma EmptyIsValid()
    ensures Valid(Store(map[], map[], map[], map[], map[]))
  {
  }

  /** Replacing one catalogue table by a table of rows of its shape keeps
      the store well typed. */
  lemma WithTableKeepsWellTyped(s: Store, k: Kind, t: map<Id, Item>)
    requires WellTyped(s)
    requires forall id :: id in t ==> t[id].KindOf() == k
    ensures WellTyped(s.WithTable(k, t))
  {
    var s1 := s.WithTable(k, t);
    forall k': Kind, id | id in s1.Table(k') ensures s1.Table(k')[id].KindOf() == k' {
      if k' != k {
        assert s1.Table(k') == s.Table(k');
      }
    }
  }

  /** Every request, updates included, keeps rows in the table of their
      shape. */
  lemma ApplyKeepsWellTyped(s: Store, req: Request)
    requires WellTyped(s)
    ensures WellTyped(Apply(s, req))
  {
    var s1 := Apply(s, req);
    match req
    case CreateItem(item) =>
      var k := item.KindOf();
      if Catalog.CreateItem(s, item).result.Ok? {
        WithTableKeepsWellTyped(s, k, s1.Table(k));
      }
    case PutItem(id, item) =>
      var k := item.KindOf();
      if Catalog.PutItem(s, id, item).result.Ok? {
        WithTableKeepsWellTyped(s, k, s1.Table(k));
      }
    case DeleteItem(k, id) =>
      if Catalog.DeleteItem(s, k, id).result.Ok? {
        WithTableKeepsWellTyped(s, k, s1.Table(k));
      }
    case _ =>
      assert forall k :: s1.Table(k) == s.Table(k);
  }

  /** Every request, updates included, keeps at most one favorite row per
      triple. */
  lemma ApplyKeepsAtMostOne(s: Store, req: Request)
    requires Favorites.AtMostOne(s.favorites)
    ensures Favorites.AtMostOne(Apply(s, req).favorites)
  {
    match req
    case AddFavorite(u, t) => FavoriteProperties.AddKeepsAtMostOne(s, u, t);
    case RemoveFavorite(u, t) => FavoriteProperties.RemoveKeepsAtMostOne(s, u, t);
    case _ =>
  }

  /** Every request other than PUT /users keeps emails and usernames
      unique; the catalogue updates never write the user table. */
  lemma ApplyKeepsUniqueAccounts(s: Store, req: Request)
    requires Accounts.UniqueAccounts(s.users)
    requires !req.PutUser?
    ensures Accounts.UniqueAccounts(Apply(s, req).users)
  {
    var s1 := Apply(s, req);
    if req.Signup? {
      AccountProperties.SignupKeepsAccountsUnique(s, req.user);
    } else if req.DeleteUser? {
      assert forall j :: j in s1.users ==> j in s.users && s1.users[j] == s.users[j];
    } else {
      assert s1.users == s.users;
    }
  }

  /** Every request other than a catalogue update keeps names unique in
      each catalogue table; PUT /users never writes a catalogue table. */
  lemma ApplyKeepsUniqueNames(s: Store, req: Request, k: Kind)
    requires Catalog.UniqueNames(s.Table(k))
    requires !req.PutItem?
    ensures Catalog.UniqueNames(Apply(s, req).Table(k))
  {
    var s1 := Apply(s, req);
    if req.CreateItem? {
      CatalogProperties.CreateKeepsNamesUnique(s, req.item, k);
    } else if req.DeleteItem? {
      assert forall j :: j in s1.Table(k) ==> j in s.Table(k) && s1.Table(k)[j] == s.Table(k)[j];
    } else {
      assert s1.Table(k) == s.Table(k);
    }
  }

  /** Every request other than an update keeps the whole invariant. */
  lemma ApplyKeepsValid(s: Store, req: Request)
    requires Valid(s)
    requires !req.IsUpdate()
    ensures Valid(Apply(s, req))
  {
    ApplyKeepsWellTyped(s, req);
    ApplyKeepsAtMostOne(s, req);
    ApplyKeepsUniqueAccounts(s, req);
    forall k ensures Catalog.UniqueNames(Apply(s, req).Table(k)) {
      ApplyKeepsUniqueNames(s, req, k);
    }
  }

  /** However requests interleave, at most one favorite row per triple. */
  lemma {:induction false} RunKeepsAtMostOne(s: Store, reqs: seq<Request>)
    requires Favorites.AtMostOne(s.favorites)
    ensures Favorites.AtMostOne(Run(s, reqs).favorites)
    decreases |reqs|
  {
    if reqs != [] {
      ApplyKeepsAtMostOne(s, reqs[0]);
      RunKeepsAtMostOne(Apply(s, reqs[0]), reqs[1..]);
    }
  }

  /** A run of requests without updates keeps the whole invariant. */
  lemma {:induction false} RunKeepsValid(s: Store, reqs: seq<Request>)
    requires Valid(s)
    requires forall i :: 0 <= i < |reqs| ==> !reqs[i].IsUpdate()
    ensures Valid(Run(s, reqs))
    decreases |reqs|
  {
    if reqs != [] {
      ApplyKeepsValid(s, reqs[0]);
      RunKeepsValid(Apply(s, reqs[0]), reqs[1..]);
    }
  }

  /** A run with no PUT /users keeps emails and usernames unique. */
  lemma {:induction false} RunKeepsUniqueAccounts(s: Store, reqs: seq<Request>)
    requires Accounts.UniqueAccounts(s.users)
    requires forall i :: 0 <= i < |reqs| ==> !reqs[i].PutUser?
    ensures Accounts.UniqueAccounts(Run(s, reqs).users)
    decreases |reqs|
  {
    if reqs != [] {
      ApplyKeepsUniqueAccounts(s, reqs[0]);
      RunKeepsUniqueAccounts(Apply(s, reqs[0]), reqs[1..]);
    }
  }

  /** A run with no catalogue update keeps names unique in every catalogue
      table. */
  lemma {:induction false} RunKeepsUniqueNames(s: Store, reqs: seq<Request>, k: Kind)
    requires Catalog.UniqueNames(s.Table(k))
    requires forall i :: 0 <= i < |reqs| ==> !reqs[i].PutItem?
    ensures Catalog.UniqueNames(Run(s, reqs).Table(k))
    decreases |reqs|
  {
    if reqs != [] {
      ApplyKeepsUniqueNames(s, reqs[0], k);
      RunKeepsUniqueNames(Apply(s, reqs[0]), reqs[1..], k);
    }
  }
}
