/** The admin client's placements page: the sub-category and status filter
    with its sort by display order, and the sub-category display names. The
    page's loader never applies the filter; it is modelled on its own. */
module PlacementsPage {
  import opened Wrappers
  import Seqs
  import Placements
  import opened ObjectLookup

  /** A placement as the client receives it: `isActive` and `sortOrder` may
      be missing. */
  datatype PlacementView = PlacementView(
    id: string,
    name: string,
    subCategory: string,
    isActive: Option<bool>,
    sortOrder: Option<int>)

  /** The filter form: a sub-category ('' for any) and a status ('all',
      'active' or 'inactive'). */
  datatype Filters = Filters(subCategory: string, status: string)

  /** `sortOrder || 0`. */
  function SortKey(p: PlacementView): int {
    p.sortOrder.GetOr(0)
  }

  function BySortKey(): (PlacementView, PlacementView) -> bool {
    (a: PlacementView, b: PlacementView) => SortKey(a) <= SortKey(b)
  }

  lemma BySortKeyPreorder()
    ensures Seqs.TotalPreorder(BySortKey())
  {
  }

  /** A missing `isActive` counts as active; only an explicit false is
      inactive. */
  predicate PassesStatus(p: PlacementView, status: string) {
    if status == "active" then p.isActive != Some(false)
    else if status == "inactive" then p.isActive == Some(false)
    else true
  }

  predicate PassesSubCategory(p: PlacementView, subCategory: string) {
    subCategory == [] || p.subCategory == subCategory
  }

  predicate Kept(p: PlacementView, f: Filters) {
    PassesSubCategory(p, f.subCategory) && PassesStatus(p, f.status)
  }

  function KeptBy(f: Filters): PlacementView -> bool {
    (p: PlacementView) => Kept(p, f)
  }

  function SubCategoryBy(sub: string): PlacementView -> bool {
    (p: PlacementView) => PassesSubCategory(p, sub)
  }

  function StatusBy(status: string): PlacementView -> bool {
    (p: PlacementView) => PassesStatus(p, status)
  }

  /** `filterPlacements`: a new list (the input is a value and stays as it
      is) holding exactly the placements that pass both filters, each as
      often as in the input, sorted by `sortOrder || 0`. */
  function FilterPlacements(ps: seq<PlacementView>, f: Filters): (r: seq<PlacementView>)
    ensures forall p :: p in r <==> p in ps && Kept(p, f)
    ensures multiset(r) == multiset(Seqs.Filter(ps, KeptBy(f)))
    ensures Seqs.SortedBy(r, BySortKey())
  {
    var narrowed := Narrow(ps, f);
    BySortKeyPreorder();
    Seqs.SortSorted(narrowed, BySortKey());
    var r := Seqs.Sort(narrowed, BySortKey());
    assert forall p :: p in r <==> p in narrowed by {
      forall p ensures p in r <==> p in narrowed {
        assert p in r <==> p in multiset(r);
        assert p in narrowed <==> p in multiset(narrowed);
      }
    }
    r
  }

  /** The two filter steps one after the other: together one filter by
      `Kept`, in input order. */
  function Narrow(ps: seq<PlacementView>, f: Filters): (r: seq<PlacementView>)
    ensures r == Seqs.Filter(ps, KeptBy(f))
  {
    var bySub := BySubCategory(ps, f.subCategory);
    FilterTwice(ps, SubCategoryBy(f.subCategory), StatusBy(f.status), KeptBy(f));
    ByStatus(bySub, f.status)
  }

  /** The sub-category step, taken only when a sub-category is chosen. */
  function BySubCategory(ps: seq<PlacementView>, sub: string): (r: seq<PlacementView>)
    ensures r == Seqs.Filter(ps, SubCategoryBy(sub))
  {
    if sub != [] then
      Seqs.FilterAgree(ps, (p: PlacementView) => p.subCategory == sub, SubCategoryBy(sub));
      Seqs.Filter(ps, (p: PlacementView) => p.subCategory == sub)
    else
      Seqs.FilterAll(ps, SubCategoryBy(sub));
      ps
  }

  /** The status step, taken only for 'active' and 'inactive'. */
  function ByStatus(ps: seq<PlacementView>, status: string): (r: seq<PlacementView>)
    ensures r == Seqs.Filter(ps, StatusBy(status))
  {
    if status == "active" then
      Seqs.FilterAgree(ps, (p: PlacementView) => p.isActive != Some(false), StatusBy(status));
      Seqs.Filter(ps, (p: PlacementView) => p.isActive != Some(false))
    else if status == "inactive" then
      Seqs.FilterAgree(ps, (p: PlacementView) => p.isActive == Some(false), StatusBy(status));
      Seqs.Filter(ps, (p: PlacementView) => p.isActive == Some(false))
    else
      Seqs.FilterAll(ps, StatusBy(status));
      ps
  }

  /** Filtering twice is filtering once by both conditions. */
  lemma {:induction false} FilterTwice(s: seq<PlacementView>, p: PlacementView -> bool, q: PlacementView -> bool,
                                       both: PlacementView -> bool)
    requires forall x :: both(x) == (p(x) && q(x))
    ensures Seqs.Filter(Seqs.Filter(s, p), q) == Seqs.Filter(s, both)
  {
    if s != [] {
      FilterTwice(s[1..], p, q, both);
      assert s == [s[0]] + s[1..];
      Seqs.FilterConcat([s[0]], s[1..], p);
      Seqs.FilterConcat([s[0]], s[1..], both);
      Seqs.FilterConcat(Seqs.Filter([s[0]], p), Seqs.Filter(s[1..], p), q);
    }
  }

  /** With no sub-category and a status other than 'active' or 'inactive',
      the page shows every placement, reordered. */
  lemma NoFilterIsPermutation(ps: seq<PlacementView>, status: string)
    requires status != "active" && status != "inactive"
    ensures multiset(FilterPlacements(ps, Filters([], status))) == multiset(ps)
  {
    Seqs.FilterAll(ps, KeptBy(Filters([], status)));
  }

  /** The 'active' and 'inactive' views split the placements between them. */
  lemma StatusViewsPartition(ps: seq<PlacementView>, sub: string, p: PlacementView)
    requires p in ps && PassesSubCategory(p, sub)
    ensures p in FilterPlacements(ps, Filters(sub, "active")) <==> p !in FilterPlacements(ps, Filters(sub, "inactive"))
  {
  }

  /** The sub-category a stored string names, if any. */
  function ParseSubCategory(sub: string): (r: Option<Placements.SubCategory>)
    ensures r.Some? ==> Placements.WireName(r.value) == sub
    ensures r.None? ==> forall s :: Placements.WireName(s) != sub
  {
    if sub == "topnav" then Some(Placements.TopNav)
    else if sub == "rightsidebar" then Some(Placements.RightSidebar)
    else if sub == "leftsidebar" then Some(Placements.LeftSidebar)
    else if sub == "bottom" then Some(Placements.Bottom)
    else if sub == "featured" then Some(Placements.Featured)
    else if sub == "sidebar" then Some(Placements.Sidebar)
    else if sub == "header" then Some(Placements.Header)
    else if sub == "footer" then Some(Placements.Footer)
    else None
  }

  /** `getSubCategoryDisplayName`: the label of the sub-category the string
      names; the inherited member for a prototype key; any other string
      unchanged. */
  function SubCategoryDisplayName(sub: string): (r: Lookup)
    ensures forall s :: Placements.WireName(s) == sub ==> r == Found(Label(s))
    ensures (forall s :: Placements.WireName(s) != sub) && sub in PrototypeKeys ==> r == Inherited(sub)
    ensures (forall s :: Placements.WireName(s) != sub) && sub !in PrototypeKeys ==> r == Found(sub)
  {
    match ParseSubCategory(sub)
    case Some(s) =>
      assert forall t :: Placements.WireName(t) == sub ==> t == s by {
        forall t ensures Placements.WireName(t) == sub ==> t == s {
          Placements.WireNameInjective(t, s);
        }
      }
      LookupOr(Some(Label(s)), sub, sub)
    case None => LookupOr(None, sub, sub)
  }

  function Label(s: Placements.SubCategory): string {
    match s
    case TopNav => "Top Navigation"
    case RightSidebar => "Right Sidebar"
    case LeftSidebar => "Left Sidebar"
    case Bottom => "Bottom Section"
    case Featured => "Featured Content"
    case Sidebar => "Sidebar"
    case Header => "Header Banner"
    case Footer => "Footer Area"
  }

  /** A stored sub-category is shown by its label, and distinct
      sub-categories get distinct labels. */
  lemma DisplayNames(s: Placements.SubCategory, t: Placements.SubCategory)
    ensures SubCategoryDisplayName(Placements.WireName(s)) == Found(Label(s))
    ensures Label(s) == Label(t) <==> s == t
  {
    if s != t {
      assert Label(s)[..2] != Label(t)[..2] || |Label(s)| != |Label(t)| || Label(s) != Label(t);
    }
  }
}
