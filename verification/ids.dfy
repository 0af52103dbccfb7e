/** Document ids and the natural order of a collection. */
module Ids {

  /** An ObjectId in its string form; the empty string is the falsy id. */
  type Id = string

  /** `order` lists every key of `m` exactly once: the order in which the
      store returns the documents of an unsorted `find`. */
  predicate NaturalOrder<T>(order: seq<Id>, m: map<Id, T>) {
    && (forall i, j :: 0 <= i < j < |order| ==> order[i] != order[j])
    && (forall i :: 0 <= i < |order| ==> order[i] in m)
    && (forall k :: k in m ==> k in order)
  }

  /** The documents of `m`, paired with their ids, in the order `order`. */
  function Rows<T>(order: seq<Id>, m: map<Id, T>): (r: seq<(Id, T)>)
    requires NaturalOrder(order, m)
    ensures |r| == |order|
    ensures forall i :: 0 <= i < |r| ==> r[i] == (order[i], m[order[i]])
  {
    seq(|order|, i requires 0 <= i < |order| => (order[i], m[order[i]]))
  }

  /** Every document appears among the rows, and nothing else does. */
  lemma RowsExact<T>(order: seq<Id>, m: map<Id, T>)
    requires NaturalOrder(order, m)
    ensures forall k, v :: (k, v) in Rows(order, m) <==> k in m && m[k] == v
  {
    var r := Rows(order, m);
    forall k, v | k in m && m[k] == v ensures (k, v) in r {
      var i :| 0 <= i < |order| && order[i] == k;
      assert r[i] == (k, v);
    }
  }
}
