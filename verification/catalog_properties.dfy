/** What the catalogue routes promise across requests: create keeps names
    unique within a table while update does not, a created row can be read
    back, and a deleted row is gone. */
module CatalogProperties {
  import opened Keys
  import opened Schema
  import opened Replies
  import opened Catalog

  /** Create never adds a second row with a name already in the table. */
  lemma CreateKeepsNamesUnique(s: Store, item: Item, k: Kind)
    requires UniqueNames(s.Table(k))
    ensures UniqueNames(CreateItem(s, item).store.Table(k))
  {
    var r := CreateItem(s, item);
    if r.result.Ok? && item.KindOf() == k {
      var t := r.store.Table(k);
      var id := r.result.value;
      forall j | j in t && j != id ensures t[j].name != item.name {
        assert t[j] == s.Table(k)[j];
      }
    }
  }

  /** Creating the same record twice: the second request fails and changes
      nothing. */
  lemma CreateTwiceFails(s: Store, item: Item)
    requires CreateItem(s, item).result.Ok?
    ensures var s1 := CreateItem(s, item).store;
      CreateItem(s1, item) == Step(Err(NameTaken(item.KindOf())), s1)
  {
    var r := CreateItem(s, item);
    assert r.store.Table(item.KindOf())[r.result.value].name == item.name;
  }

  /** A created row can be read back by the id it was given. For vehicles
      this is the model's lookup: the API's GET /vehicles/<id> never reads a
      row back. */
  lemma CreateThenGet(s: Store, item: Item)
    requires CreateItem(s, item).result.Ok?
    ensures var r := CreateItem(s, item);
      GetItem(r.store, item.KindOf(), r.result.value) == Ok(item)
  {
  }

  /** An update can give a row the name of another row of its table: the
      update route does not keep the uniqueness that create keeps. */
  lemma PutItemCanDuplicateName()
    ensures
      var tatooine := Planet("Tatooine", "10465", "23", "304", "1 standard", "200000", "arid", "desert", "1");
      var alderaan := Planet("Alderaan", "12500", "24", "364", "1 standard", "2000000000", "temperate", "grasslands", "40");
      var s := Store(map[], map[], map[1 := tatooine, 2 := alderaan], map[], map[]);
      var r := PutItem(s, 2, Planet("Tatooine", "12500", "24", "364", "1 standard", "2000000000", "temperate", "grasslands", "40"));
      && UniqueNames(s.Table(Planets))
      && r.result.Ok?
      && !UniqueNames(r.store.Table(Planets))
  {
    var tatooine := Planet("Tatooine", "10465", "23", "304", "1 standard", "200000", "arid", "desert", "1");
    var alderaan := Planet("Alderaan", "12500", "24", "364", "1 standard", "2000000000", "temperate", "grasslands", "40");
    var s := Store(map[], map[], map[1 := tatooine, 2 := alderaan], map[], map[]);
    var r := PutItem(s, 2, Planet("Tatooine", "12500", "24", "364", "1 standard", "2000000000", "temperate", "grasslands", "40"));
    assert r.store.Table(Planets)[1].name == r.store.Table(Planets)[2].name;
  }

  /** After a delete the row is gone, its table is one row shorter and the
      other tables keep their sizes. For vehicles the failed get is the
      model's lookup: the API's GET /vehicles/<id> never reads a row back. */
  lemma DeleteThenGetItem(s: Store, k: Kind, id: Id)
    requires DeleteItem(s, k, id).result.Ok?
    ensures var s1 := DeleteItem(s, k, id).store;
      && GetItem(s1, k, id) == Err(NoSuchItem(k))
      && |s1.Table(k)| == |s.Table(k)| - 1
      && (forall k' :: k' != k ==> |s1.Table(k')| == |s.Table(k')|)
      && |s1.users| == |s.users| && |s1.favorites| == |s.favorites|
  {
  }
}
