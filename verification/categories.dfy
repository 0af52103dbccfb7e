/** The category collection and the category service: create, list, look up
    by id, and the post counter the posts service keeps. */
module Categories {
  import opened Wrappers
  import opened Ids

  datatype Category = Category(
    name: string,
    slug: string,
    description: Option<string>,
    color: string,
    isActive: bool,
    postCount: int)

  /** The fields a create request supplies; the others take schema defaults. */
  datatype NewCategory = NewCategory(
    name: string,
    slug: string,
    description: Option<string>,
    color: Option<string>,
    isActive: Option<bool>)

  type Registry = map<Id, Category>

  const DefaultColor: string := "#000000"

  /** `create`: stores a new category under the fresh id the store assigns.
      Colour and activity default as the schema says; the counter starts at 0. */
  function Create(reg: Registry, id: Id, input: NewCategory): (r: Registry)
    requires id !in reg
    ensures r.Keys == reg.Keys + {id}
    ensures forall k :: k in reg ==> r[k] == reg[k]
    ensures r[id].postCount == 0
    ensures r[id].name == input.name && r[id].slug == input.slug
    ensures r[id].description == input.description
    ensures input.color.None? ==> r[id].color == DefaultColor
    ensures input.color.Some? ==> r[id].color == input.color.value
    ensures r[id].isActive <==> input.isActive != Some(false)
  {
    reg[id := Category(input.name, input.slug, input.description,
                       input.color.GetOr(DefaultColor), input.isActive.GetOr(true), 0)]
  }

  /** `findAll`: every category in natural order, active or not. */
  function FindAll(reg: Registry, order: seq<Id>): (r: seq<Category>)
    requires NaturalOrder(order, reg)
    ensures |r| == |order|
    ensures forall k :: k in reg ==> reg[k] in r
    ensures forall c :: c in r ==> exists k :: k in reg && reg[k] == c
  {
    var r := seq(|order|, i requires 0 <= i < |order| => reg[order[i]]);
    assert forall k :: k in reg ==> reg[k] in r by {
      forall k | k in reg ensures reg[k] in r {
        var i :| 0 <= i < |order| && order[i] == k;
        assert r[i] == reg[k];
      }
    }
    r
  }

  /** `findOne`: the stored category, or NotFound. */
  function FindOne(reg: Registry, id: Id): (r: Result<Category>)
    ensures r.Ok? <==> id in reg
    ensures r.Ok? ==> r.value == reg[id]
    ensures r.Err? ==> r.error == NotFound
  {
    if id in reg then Ok(reg[id]) else Err(NotFound)
  }

  /** Adds `delta` to one category's counter; an unknown id is a no-op, as an
      update that matches no document is. */
  function Shift(reg: Registry, id: Id, delta: int): (r: Registry)
    ensures r.Keys == reg.Keys
    ensures forall k :: k in reg && k != id ==> r[k] == reg[k]
    ensures id in reg ==> r[id] == reg[id].(postCount := reg[id].postCount + delta)
  {
    if id in reg then reg[id := reg[id].(postCount := reg[id].postCount + delta)] else reg
  }

  /** `incrementPostCount`. */
  function Increment(reg: Registry, id: Id): (r: Registry)
    ensures r.Keys == reg.Keys
    ensures id in reg ==> r[id].postCount == reg[id].postCount + 1
    ensures forall k :: k in reg ==> r[k].postCount == reg[k].postCount + (if k == id then 1 else 0)
    ensures forall k :: k in reg ==> r[k] == reg[k].(postCount := r[k].postCount)
    ensures id !in reg ==> r == reg
  {
    Shift(reg, id, 1)
  }

  /** `decrementPostCount`: no lower bound, so a counter at 0 goes to -1. */
  function Decrement(reg: Registry, id: Id): (r: Registry)
    ensures r.Keys == reg.Keys
    ensures id in reg ==> r[id].postCount == reg[id].postCount - 1
    ensures forall k :: k in reg ==> r[k].postCount == reg[k].postCount - (if k == id then 1 else 0)
    ensures forall k :: k in reg ==> r[k] == reg[k].(postCount := r[k].postCount)
    ensures id !in reg ==> r == reg
  {
    Shift(reg, id, -1)
  }

  /** Decrementing then incrementing, or the other way round, restores the
      registry. */
  lemma IncrementDecrementCancel(reg: Registry, id: Id)
    ensures Decrement(Increment(reg, id), id) == reg
    ensures Increment(Decrement(reg, id), id) == reg
  {
    if id in reg {
      assert reg[id].(postCount := reg[id].postCount) == reg[id];
    }
  }

  /** A counter at 0 is taken below zero. */
  lemma DecrementUnclamped(reg: Registry, id: Id)
    requires id in reg && reg[id].postCount == 0
    ensures Decrement(reg, id)[id].postCount == -1
  {
  }
}
