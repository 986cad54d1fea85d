/** Primary keys of the relational tables and the two ways the handlers pick
    keys: the least matching key (the row a filtered `.first()` query hands
    back when rows come back in key order) and a fresh key for an insert. */
module Keys {

  /** Every table is keyed by the database's integer id, never negative. */
  type Id = nat

  predicate IsLeast(r: Id, ids: set<Id>) {
    r in ids && forall j :: j in ids ==> r <= j
  }

  predicate IsGreatest(r: Id, ids: set<Id>) {
    r in ids && forall j :: j in ids ==> j <= r
  }

  /** The least id of a non-empty set of ids. */
  function Least(ids: set<Id>): (r: Id)
    requires ids != {}
    ensures r in ids
    ensures forall j :: j in ids ==> r <= j
  {
    LeastExists(ids);
    var r :| IsLeast(r, ids);
    r
  }

  /** The greatest id of a non-empty set of ids. */
  function Greatest(ids: set<Id>): (r: Id)
    requires ids != {}
    ensures r in ids
    ensures forall j :: j in ids ==> j <= r
  {
    GreatestExists(ids);
    var r :| IsGreatest(r, ids);
    r
  }

  /** The id an insert gives its new row: one past the largest id in the
      table, and 1 in an empty table, as SQLite assigns rowids. */
  function FreshId<V>(m: map<Id, V>): (r: Id)
    ensures r !in m
    ensures forall k :: k in m ==> k < r
  {
    if m.Keys == {} then 1 else Greatest(m.Keys) + 1
  }

  lemma {:induction false} LeastExists(ids: set<Id>)
    requires ids != {}
    ensures exists r :: IsLeast(r, ids)
  {
    var x :| x in ids;
    var rest := ids - {x};
    if rest == {} {
      assert IsLeast(x, ids) by {
        forall j | j in ids ensures x <= j {
          assert j !in rest;
        }
      }
    } else {
      LeastExists(rest);
      var m :| IsLeast(m, rest);
      var r := if x <= m then x else m;
      assert IsLeast(r, ids) by {
        forall j | j in ids ensures r <= j {
          if j != x { assert j in rest; }
        }
      }
    }
  }

  lemma {:induction false} GreatestExists(ids: set<Id>)
    requires ids != {}
    ensures exists r :: IsGreatest(r, ids)
  {
    var x :| x in ids;
    var rest := ids - {x};
    if rest == {} {
      assert IsGreatest(x, ids) by {
        forall j | j in ids ensures j <= x {
          assert j !in rest;
        }
      }
    } else {
      GreatestExists(rest);
      var m :| IsGreatest(m, rest);
      var r := if m <= x then x else m;
      assert IsGreatest(r, ids) by {
        forall j | j in ids ensures j <= r {
          if j != x { assert j in rest; }
        }
      }
    }
  }
}
