/** The people, planet and vehicle tables: create guarded by the name, and
    get, update and delete by id. The three copies of each handler in the
    API differ only in the table they use, so each is one function of the
    table's kind here. */
module Catalog {
  import opened Keys
  import opened Schema
  import opened Replies

  /** Some row of table `t` carries this name. */
  predicate NameInUse(t: map<Id, Item>, name: string) {
    exists k :: k in t && t[k].name == name
  }

  /** No two rows of table `t` share a name. */
  ghost predicate UniqueNames(t: map<Id, Item>) {
    forall i, j :: i in t && j in t && i != j ==> t[i].name != t[j].name
  }

  /** GET /people/<id>, GET /planets/<id>. */
  function GetItem(s: Store, k: Kind, id: Id): (r: Result<Item>)
    ensures r.Ok? <==> id in s.Table(k)
    ensures r.Ok? ==> r.value == s.Table(k)[id]
    ensures r.Err? ==> r.failure == NoSuchItem(k)
  {
    if id in s.Table(k) then Ok(s.Table(k)[id]) else Err(NoSuchItem(k))
  }

  /** POST /people, /planets, /vehicles: the record goes to the table of its
      own shape; a name already in that table is refused with the store
      unchanged, otherwise exactly one row is added and no other table
      changes. */
  function CreateItem(s: Store, item: Item): (r: Step<Id>)
    ensures r.result.Err? <==> NameInUse(s.Table(item.KindOf()), item.name)
    ensures r.result.Err? ==> r.result.failure == NameTaken(item.KindOf()) && r.store == s
    ensures r.result.Ok? ==>
      var k := item.KindOf();
      && r.result.value !in s.Table(k)
      && r.store.Table(k) == s.Table(k)[r.result.value := item]
      && r.store == s.WithTable(k, r.store.Table(k))
  {
    var k := item.KindOf();
    var t := s.Table(k);
    if NameInUse(t, item.name) then Step(Err(NameTaken(k)), s)
    else
      var id := FreshId(t);
      Step(Ok(id), s.WithTable(k, t[id := item]))
  }

  /** PUT /people/<id>, /planets/<id>, /vehicles/<id>: replaces every field
      of that one row of the record's table, or fails with the store
      unchanged. The new name is not checked against the other rows. */
  function PutItem(s: Store, id: Id, item: Item): (r: Step<()>)
    ensures r.result.Ok? <==> id in s.Table(item.KindOf())
    ensures r.result.Err? ==> r.result.failure == ItemNotInSystem(item.KindOf()) && r.store == s
    ensures r.result.Ok? ==>
      var k := item.KindOf();
      && r.store.Table(k).Keys == s.Table(k).Keys
      && r.store.Table(k)[id] == item
      && (forall j :: j in s.Table(k) && j != id ==> r.store.Table(k)[j] == s.Table(k)[j])
      && r.store == s.WithTable(k, r.store.Table(k))
  {
    var k := item.KindOf();
    var t := s.Table(k);
    if id in t then Step(Ok(()), s.WithTable(k, t[id := item]))
    else Step(Err(ItemNotInSystem(k)), s)
  }

  /** DELETE /people/<id>, /planets/<id>, /vehicles/<id>: removes exactly
      that row, or fails with the store unchanged. */
  function DeleteItem(s: Store, k: Kind, id: Id): (r: Step<()>)
    ensures r.result.Ok? <==> id in s.Table(k)
    ensures r.result.Err? ==> r.result.failure == NoSuchItem(k) && r.store == s
    ensures r.result.Ok? ==>
      && r.store.Table(k).Keys == s.Table(k).Keys - {id}
      && (forall j :: j in r.store.Table(k) ==> r.store.Table(k)[j] == s.Table(k)[j])
      && r.store == s.WithTable(k, r.store.Table(k))
  {
    var t := s.Table(k);
    if id in t then Step(Ok(()), s.WithTable(k, t - {id}))
    else Step(Err(NoSuchItem(k)), s)
  }
}
