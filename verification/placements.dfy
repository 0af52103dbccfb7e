/** The placement collection and the placement service: create, the sorted
    listings, lookups, update, remove and the post counter. */
module Placements {
  import opened Wrappers
  import opened Ids
  import Text
  import Seqs

  /** Where on the site a placement shows. */
  datatype SubCategory =
    | TopNav | RightSidebar | LeftSidebar | Bottom | Featured | Sidebar | Header | Footer

  /** The value stored and sent on the wire for each sub-category. */
  function WireName(s: SubCategory): (r: string)
    ensures |r| > 0
  {
    match s
    case TopNav => "topnav"
    case RightSidebar => "rightsidebar"
    case LeftSidebar => "leftsidebar"
    case Bottom => "bottom"
    case Featured => "featured"
    case Sidebar => "sidebar"
    case Header => "header"
    case Footer => "footer"
  }

  /** Distinct sub-categories are stored as distinct strings. */
  lemma WireNameInjective(a: SubCategory, b: SubCategory)
    ensures WireName(a) == WireName(b) <==> a == b
  {
    if a != b {
      assert WireName(a)[..3] != WireName(b)[..3] || |WireName(a)| != |WireName(b)|
        || WireName(a) != WireName(b);
    }
  }

  datatype Placement = Placement(
    name: string,
    slug: string,
    subCategory: SubCategory,
    description: Option<string>,
    color: string,
    isActive: bool,
    postCount: int,
    sortOrder: int)

  /** The fields of a create request; the others take schema defaults. */
  datatype NewPlacement = NewPlacement(
    name: string,
    slug: string,
    subCategory: SubCategory,
    description: Option<string>,
    color: Option<string>,
    isActive: Option<bool>,
    sortOrder: Option<int>)

  /** The fields of an update request, each optional. The counter is not one
      of them: the validation pipe rejects unknown fields. */
  datatype PlacementPatch = PlacementPatch(
    name: Option<string>,
    slug: Option<string>,
    subCategory: Option<SubCategory>,
    description: Option<string>,
    color: Option<string>,
    isActive: Option<bool>,
    sortOrder: Option<int>)

  type Registry = map<Id, Placement>

  const DefaultColor: string := "#3498db"

  /** `create`: stores a new placement under the fresh id the store assigns. */
  function Create(reg: Registry, id: Id, input: NewPlacement): (r: Registry)
    requires id !in reg
    ensures r.Keys == reg.Keys + {id}
    ensures forall k :: k in reg ==> r[k] == reg[k]
    ensures r[id].postCount == 0
    ensures r[id].name == input.name && r[id].slug == input.slug
    ensures r[id].subCategory == input.subCategory && r[id].description == input.description
    ensures input.color.None? ==> r[id].color == DefaultColor
    ensures input.color.Some? ==> r[id].color == input.color.value
    ensures r[id].isActive <==> input.isActive != Some(false)
    ensures input.sortOrder.None? ==> r[id].sortOrder == 0
    ensures input.sortOrder.Some? ==> r[id].sortOrder == input.sortOrder.value
  {
    reg[id := Placement(input.name, input.slug, input.subCategory, input.description,
                        input.color.GetOr(DefaultColor), input.isActive.GetOr(true), 0,
                        input.sortOrder.GetOr(0))]
  }

  // ---------------------------------------------------------------------
  // Listings

  /** The listing order: `sortOrder` ascending, then `name` ascending. */
  function ListingOrder(): (le: ((Id, Placement), (Id, Placement)) -> bool)
    ensures forall a: (Id, Placement), b: (Id, Placement) :: le(a, b) ==> a.1.sortOrder <= b.1.sortOrder
    ensures forall a: (Id, Placement), b: (Id, Placement) :: a.1.sortOrder == b.1.sortOrder ==> (le(a, b) <==> Text.StrLe(a.1.name, b.1.name))
  {
    Seqs.ThenBy((a: (Id, Placement), b: (Id, Placement)) => a.1.sortOrder <= b.1.sortOrder,
                (a: (Id, Placement), b: (Id, Placement)) => Text.StrLe(a.1.name, b.1.name))
  }

  lemma ListingOrderPreorder()
    ensures Seqs.TotalPreorder(ListingOrder())
  {
    var bySort := (a: (Id, Placement), b: (Id, Placement)) => a.1.sortOrder <= b.1.sortOrder;
    var byName := (a: (Id, Placement), b: (Id, Placement)) => Text.StrLe(a.1.name, b.1.name);
    forall a, b ensures byName(a, b) || byName(b, a) {
      Text.StrLeTotal(a.1.name, b.1.name);
    }
    forall a, b, c | byName(a, b) && byName(b, c) ensures byName(a, c) {
      Text.StrLeTrans(a.1.name, b.1.name, c.1.name);
    }
    Seqs.ThenByPreorder(bySort, byName);
  }

  /** The rows meeting `keep`, in listing order. */
  function Listed(reg: Registry, order: seq<Id>, keep: ((Id, Placement)) -> bool): (r: seq<(Id, Placement)>)
    requires NaturalOrder(order, reg)
    ensures forall k, p :: (k, p) in r <==> k in reg && reg[k] == p && keep((k, p))
    ensures Seqs.SortedBy(r, ListingOrder())
    ensures multiset(r) == multiset(Seqs.Filter(Rows(order, reg), keep))
  {
    var kept := Seqs.Filter(Rows(order, reg), keep);
    var r := Seqs.Sort(kept, ListingOrder());
    RowsExact(order, reg);
    ListingOrderPreorder();
    Seqs.SortSorted(kept, ListingOrder());
    assert forall e :: e in r <==> e in kept by {
      forall e ensures e in r <==> e in kept {
        assert e in r <==> e in multiset(r);
        assert e in kept <==> e in multiset(kept);
      }
    }
    r
  }

  /** `findAll`: exactly the active placements, in listing order. */
  function FindAll(reg: Registry, order: seq<Id>): (r: seq<(Id, Placement)>)
    requires NaturalOrder(order, reg)
    ensures forall k, p :: (k, p) in r <==> k in reg && reg[k] == p && p.isActive
    ensures Seqs.SortedBy(r, ListingOrder())
  {
    Listed(reg, order, (e: (Id, Placement)) => e.1.isActive)
  }

  /** `findAllWithInactive`: every placement, in listing order. */
  function FindAllWithInactive(reg: Registry, order: seq<Id>): (r: seq<(Id, Placement)>)
    requires NaturalOrder(order, reg)
    ensures forall k, p :: (k, p) in r <==> k in reg && reg[k] == p
    ensures |r| == |order|
    ensures Seqs.SortedBy(r, ListingOrder())
  {
    var r := Listed(reg, order, (e: (Id, Placement)) => true);
    Seqs.FilterAll(Rows(order, reg), (e: (Id, Placement)) => true);
    assert |r| == |multiset(r)|;
    r
  }

  /** `findBySubCategory`: exactly the active placements whose stored
      sub-category is the given string, in listing order. A string that names
      no sub-category matches nothing. */
  function FindBySubCategory(reg: Registry, order: seq<Id>, sub: string): (r: seq<(Id, Placement)>)
    requires NaturalOrder(order, reg)
    ensures forall k, p :: (k, p) in r <==> k in reg && reg[k] == p && p.isActive && WireName(p.subCategory) == sub
    ensures Seqs.SortedBy(r, ListingOrder())
  {
    Listed(reg, order, (e: (Id, Placement)) => WireName(e.1.subCategory) == sub && e.1.isActive)
  }

  /** The active listing narrowed to one sub-category holds exactly the
      placements of the sub-category listing. */
  lemma SubCategoryNarrowsFindAll(reg: Registry, order: seq<Id>, s: SubCategory)
    requires NaturalOrder(order, reg)
    ensures forall e :: e in FindBySubCategory(reg, order, WireName(s)) <==>
                        e in FindAll(reg, order) && e.1.subCategory == s
  {
    forall e ensures e in FindBySubCategory(reg, order, WireName(s)) <==>
                     e in FindAll(reg, order) && e.1.subCategory == s {
      WireNameInjective(e.1.subCategory, s);
    }
  }

  // ---------------------------------------------------------------------
  // Lookups

  /** `findOne`: the stored placement, or NotFound. */
  function FindOne(reg: Registry, id: Id): (r: Result<Placement>)
    ensures r.Ok? <==> id in reg
    ensures r.Ok? ==> r.value == reg[id]
    ensures r.Err? ==> r.error == NotFound
  {
    if id in reg then Ok(reg[id]) else Err(NotFound)
  }

  /** `findBySlug`: the first placement in natural order with that slug,
      or NotFound when none has it. */
  function FindBySlug(reg: Registry, order: seq<Id>, slug: string): (r: Result<Placement>)
    requires NaturalOrder(order, reg)
    ensures r.Ok? <==> exists k :: k in reg && reg[k].slug == slug
    ensures r.Ok? ==> r.value.slug == slug && exists k :: k in reg && reg[k] == r.value
    ensures r.Err? ==> r.error == NotFound
  {
    var i := Seqs.FirstIndex(order, (k: Id) => k in reg && reg[k].slug == slug);
    if i < |order| then Ok(reg[order[i]])
    else
      assert forall k :: k in reg ==> reg[k].slug != slug by {
        forall k | k in reg ensures reg[k].slug != slug {
          var j :| 0 <= j < |order| && order[j] == k;
        }
      }
      Err(NotFound)
  }

  // ---------------------------------------------------------------------
  // Changes

  /** `q` is `p` with every field the patch carries set to the patch's value,
      every other field kept, and the counter untouched. */
  predicate PatchApplied(p: Placement, patch: PlacementPatch, q: Placement) {
    && q.name == (if patch.name.Some? then patch.name.value else p.name)
    && q.slug == (if patch.slug.Some? then patch.slug.value else p.slug)
    && q.subCategory == (if patch.subCategory.Some? then patch.subCategory.value else p.subCategory)
    && q.description == (if patch.description.Some? then patch.description else p.description)
    && q.color == (if patch.color.Some? then patch.color.value else p.color)
    && q.isActive == (if patch.isActive.Some? then patch.isActive.value else p.isActive)
    && q.sortOrder == (if patch.sortOrder.Some? then patch.sortOrder.value else p.sortOrder)
    && q.postCount == p.postCount
  }

  /** The placement with every field the patch carries replaced. */
  function Patched(p: Placement, patch: PlacementPatch): (r: Placement)
    ensures PatchApplied(p, patch, r)
    ensures patch == PlacementPatch(None, None, None, None, None, None, None) ==> r == p
  {
    Placement(
      patch.name.GetOr(p.name),
      patch.slug.GetOr(p.slug),
      patch.subCategory.GetOr(p.subCategory),
      if patch.description.Some? then patch.description else p.description,
      patch.color.GetOr(p.color),
      patch.isActive.GetOr(p.isActive),
      p.postCount,
      patch.sortOrder.GetOr(p.sortOrder))
  }

  /** `update`: NotFound for an unknown id; otherwise only the patched
      fields of that one placement change. */
  function Update(reg: Registry, id: Id, patch: PlacementPatch): (r: Result<Registry>)
    ensures r.Err? <==> id !in reg
    ensures r.Err? ==> r.error == NotFound
    ensures r.Ok? ==> r.value.Keys == reg.Keys
    ensures r.Ok? ==> forall k :: k in reg && k != id ==> r.value[k] == reg[k]
    ensures r.Ok? ==> r.value[id].postCount == reg[id].postCount
    ensures r.Ok? ==> PatchApplied(reg[id], patch, r.value[id])
  {
    if id in reg then Ok(reg[id := Patched(reg[id], patch)]) else Err(NotFound)
  }

  /** An empty patch changes nothing. */
  lemma UpdateEmptyPatch(reg: Registry, id: Id)
    requires id in reg
    ensures Update(reg, id, PlacementPatch(None, None, None, None, None, None, None)) == Ok(reg)
  {
    assert reg[id := reg[id]] == reg;
  }

  /** `remove`: NotFound for an unknown id; otherwise that placement is gone,
      whatever its counter says, and the others stay. */
  function Remove(reg: Registry, id: Id): (r: Result<Registry>)
    ensures r.Err? <==> id !in reg
    ensures r.Err? ==> r.error == NotFound
    ensures r.Ok? ==> r.value.Keys == reg.Keys - {id}
    ensures r.Ok? ==> forall k :: k in r.value ==> r.value[k] == reg[k]
  {
    if id in reg then Ok(reg - {id}) else Err(NotFound)
  }

  // ---------------------------------------------------------------------
  // The post counter

  /** Adds `delta` to one placement's counter; an unknown id is a no-op. */
  function Shift(reg: Registry, id: Id, delta: int): (r: Registry)
    ensures r.Keys == reg.Keys
    ensures forall k :: k in reg && k != id ==> r[k] == reg[k]
    ensures id in reg ==> r[id] == reg[id].(postCount := reg[id].postCount + delta)
  {
    if id in reg then reg[id := reg[id].(postCount := reg[id].postCount + delta)] else reg
  }

  /** `incrementPostCount`. */
  function Increment(reg: Registry, id: Id): (r: Registry)
    ensures r.Keys == reg.Keys
    ensures id in reg ==> r[id].postCount == reg[id].postCount + 1
    ensures forall k :: k in reg ==> r[k].postCount == reg[k].postCount + (if k == id then 1 else 0)
    ensures forall k :: k in reg ==> r[k] == reg[k].(postCount := r[k].postCount)
    ensures id !in reg ==> r == reg
  {
    Shift(reg, id, 1)
  }

  /** `decrementPostCount`: no lower bound. */
  function Decrement(reg: Registry, id: Id): (r: Registry)
    ensures r.Keys == reg.Keys
    ensures id in reg ==> r[id].postCount == reg[id].postCount - 1
    ensures forall k :: k in reg ==> r[k].postCount == reg[k].postCount - (if k == id then 1 else 0)
    ensures forall k :: k in reg ==> r[k] == reg[k].(postCount := r[k].postCount)
    ensures id !in reg ==> r == reg
  {
    Shift(reg, id, -1)
  }

  lemma IncrementDecrementCancel(reg: Registry, id: Id)
    ensures Decrement(Increment(reg, id), id) == reg
    ensures Increment(Decrement(reg, id), id) == reg
  {
    if id in reg {
      assert reg[id].(postCount := reg[id].postCount) == reg[id];
    }
  }
}
