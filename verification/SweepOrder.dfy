/** The total order the sweep ranks superseded records by, and the sort it uses. */
module SweepOrder {
  import opened StringOrder
  import opened Sequences

  type Id = string

  /** `x` was activated after `y`, or in the same second with the larger id. */
  predicate Newer(at: map<Id, int>, x: Id, y: Id)
    requires x in at && y in at
  {
    at[x] > at[y] || (at[x] == at[y] && Less(y, x))
  }

  lemma NewerIsTotal(at: map<Id, int>, x: Id, y: Id)
    requires x in at && y in at
    ensures x == y || Newer(at, x, y) || Newer(at, y, x)
    ensures !(Newer(at, x, y) && Newer(at, y, x))
  {
    LessIsTotal(x, y);
  }

  lemma NewerIsTransitive(at: map<Id, int>, x: Id, y: Id, z: Id)
    requires x in at && y in at && z in at && Newer(at, x, y) && Newer(at, y, z)
    ensures Newer(at, x, z)
  {
    if at[x] == at[z] {
      LessIsTransitive(z, y, x);
    }
  }

  predicate NewestFirst(at: map<Id, int>, order: seq<Id>) {
    && (forall k :: 0 <= k < |order| ==> order[k] in at)
    && (forall j, k :: 0 <= j < k < |order| ==> Newer(at, order[j], order[k]))
  }

  /** Inserting before the first element that is not newer keeps the order. */
  lemma InsertKeepsOrder(at: map<Id, int>, order: seq<Id>, i: nat, id: Id)
    requires NewestFirst(at, order) && id in at && id !in order && i <= |order|
    requires forall j :: 0 <= j < i ==> Newer(at, order[j], id)
    requires i < |order| ==> !Newer(at, order[i], id)
    ensures NewestFirst(at, order[..i] + [id] + order[i..])
  {
    forall j | i <= j < |order| ensures Newer(at, id, order[j]) {
      NewerIsTotal(at, id, order[i]);
      if j > i {
        NewerIsTransitive(at, id, order[i], order[j]);
      }
    }
  }

  /** The sort of the superseded ids, newest activation first. */
  method Sort(at: map<Id, int>) returns (order: seq<Id>)
    ensures NewestFirst(at, order)
    ensures Elements(order) == at.Keys
  {
    order := [];
    var left := at.Keys;
    while left != {}
      invariant left <= at.Keys && Elements(order) == at.Keys - left
      invariant NewestFirst(at, order)
      decreases left
    {
      var id :| id in left;
      var i := 0;
      while i < |order| && Newer(at, order[i], id)
        invariant i <= |order|
        invariant forall j :: 0 <= j < i ==> Newer(at, order[j], id)
      {
        i := i + 1;
      }
      assert forall k :: 0 <= k < |order| ==> order[k] in Elements(order);
      InsertKeepsOrder(at, order, i, id);
      InsertElements(order, i, id);
      order, left := order[..i] + [id] + order[i..], left - {id};
    }
  }

  lemma InsertElements(order: seq<Id>, i: nat, id: Id)
    requires i <= |order|
    ensures Elements(order[..i] + [id] + order[i..]) == Elements(order) + {id}
  {
    var after := order[..i] + [id] + order[i..];
    assert after[i] == id;
    forall x | x in Elements(order) ensures x in Elements(after) {
      var k :| 0 <= k < |order| && order[k] == x;
      assert after[if k < i then k else k + 1] == x;
    }
  }
}
