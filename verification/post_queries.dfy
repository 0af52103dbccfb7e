/** The posts service's reads: the filtered, sorted and paged listings
    (`findAll`, `findByAuthor`, `findByTag`, `findByFilters`) and the
    published feed. Each takes the post collection in natural order. */
module PostQueries {
  import opened Wrappers
  import opened Ids
  import Text
  import Seqs
  import opened Posts

  type Positive = n: int | n >= 1 witness 1

  /** The query string: `page` and `limit` default to 1 and 10; an empty
      `author`, `search` or `tags` is an absent one. */
  datatype QueryParams = QueryParams(
    page: Option<Positive>,
    limit: Option<Positive>,
    status: Option<PostStatus>,
    author: Id,
    search: string,
    tags: seq<string>)

  const DefaultPage: Positive := 1
  const DefaultLimit: Positive := 10

  function PageParam(q: QueryParams): Positive {
    q.page.GetOr(DefaultPage)
  }

  function LimitParam(q: QueryParams): Positive {
    q.limit.GetOr(DefaultLimit)
  }

  /** The filter document a listing builds; each present field is one more
      condition a post must meet. */
  datatype Criteria = Criteria(
    status: Option<PostStatus>,
    author: Option<Id>,
    search: Option<string>,
    tags: Option<seq<string>>)

  /** The `$or` over title, content and excerpt, each a case-insensitive
      `$regex` with the search text; a post without an excerpt does not match
      on it. */
  predicate MatchesSearch(p: Post, needle: string) {
    || Text.ContainsIgnoreCase(p.title, needle)
    || Text.ContainsIgnoreCase(p.content, needle)
    || (p.excerpt.Some? && Text.ContainsIgnoreCase(p.excerpt.value, needle))
  }

  /** `tags: {$in: tags}`: the post carries at least one of them. */
  predicate SharesTag(p: Post, tags: seq<string>) {
    exists t :: t in tags && t in p.tags
  }

  predicate Matches(p: Post, c: Criteria) {
    && (c.status.Some? ==> p.status == c.status.value)
    && (c.author.Some? ==> p.author == c.author.value)
    && (c.search.Some? ==> MatchesSearch(p, c.search.value))
    && (c.tags.Some? ==> SharesTag(p, c.tags.value))
  }

  /** The filter object is the conjunction of its fields: a post matches
      exactly when it matches each one-field filter, and the empty filter
      matches every post. */
  lemma MatchesEachField(p: Post, c: Criteria)
    ensures Matches(p, c) <==>
              && Matches(p, Criteria(c.status, None, None, None))
              && Matches(p, Criteria(None, c.author, None, None))
              && Matches(p, Criteria(None, None, c.search, None))
              && Matches(p, Criteria(None, None, None, c.tags))
    ensures Matches(p, Criteria(None, None, None, None))
  {
  }

  /** `Matches(_, c)` as a function value: the filter a listing hands the
      store. */
  function MatchesBy(c: Criteria): Post -> bool {
    (p: Post) => Matches(p, c)
  }

  /** The criteria `findAll` builds from the query: only truthy fields count. */
  function ListCriteria(q: QueryParams): (c: Criteria)
    ensures c.status == q.status
    ensures c.author.Some? <==> q.author != ""
    ensures c.search.Some? <==> q.search != ""
    ensures c.tags.Some? <==> |q.tags| > 0
    ensures c.author.Some? ==> c.author.value == q.author
    ensures c.search.Some? ==> c.search.value == q.search
    ensures c.tags.Some? ==> c.tags.value == q.tags
  {
    Criteria(
      q.status,
      if q.author != "" then Some(q.author) else None,
      if q.search != "" then Some(q.search) else None,
      if |q.tags| > 0 then Some(q.tags) else None)
  }

  /** The answer envelope. */
  datatype Page = Page(posts: seq<Post>, total: nat, page: Positive, limit: Positive, totalPages: nat)

  /** `Math.ceil(total / limit)`. */
  function CeilDiv(n: nat, d: Positive): (r: nat)
    ensures r * d >= n
    ensures r > 0 ==> (r - 1) * d < n
  {
    (n + d - 1) / d
  }

  /** How many posts come before page `page`: `(page - 1) * limit`. */
  function Offset(page: Positive, limit: Positive): (r: nat)
    ensures r == (page - 1) * limit
    ensures r + limit == page * limit
  {
    (page - 1) * limit
  }

  /** `.skip((page - 1) * limit).limit(limit)`. */
  function PageOf<T>(s: seq<T>, page: Positive, limit: Positive): (r: seq<T>)
    ensures |r| <= limit
    ensures Offset(page, limit) >= |s| ==> r == []
    ensures Offset(page, limit) < |s| ==>
              |r| == (if Offset(page, limit) + limit <= |s| then limit else |s| - Offset(page, limit))
    ensures forall i :: 0 <= i < |r| ==> Offset(page, limit) + i < |s| && r[i] == s[Offset(page, limit) + i]
    ensures forall j :: Offset(page, limit) <= j < Offset(page, limit) + limit && j < |s| ==> s[j] in r
  {
    Take(s, Offset(page, limit), limit)
  }

  /** `limit` elements of `s` from position `skip` on, fewer at the end. */
  function Take<T>(s: seq<T>, skip: nat, limit: Positive): (r: seq<T>)
    ensures |r| <= limit
    ensures skip >= |s| ==> r == []
    ensures skip < |s| ==> |r| == (if skip + limit <= |s| then limit else |s| - skip)
    ensures forall i :: 0 <= i < |r| ==> skip + i < |s| && r[i] == s[skip + i]
    ensures forall j :: skip <= j < skip + limit && j < |s| ==> s[j] in r
  {
    if skip >= |s| then []
    else
      var hi := if skip + limit < |s| then skip + limit else |s|;
      var r := s[skip..hi];
      assert forall j :: skip <= j < hi ==> s[j] == r[j - skip];
      r
  }

  /** `posts` is page `page` of the hits put in `le` order. The store may
      order ties either way, so any sorted arrangement of the hits will do. */
  ghost predicate SortedWindow(posts: seq<Post>, hits: seq<Post>, le: (Post, Post) -> bool,
                               page: Positive, limit: Positive) {
    exists s: seq<Post> :: multiset(s) == multiset(hits) && Seqs.SortedBy(s, le) && posts == PageOf(s, page, limit)
  }

  /** Filter, stable sort, then cut out one page; `total` counts the whole
      filtered set. */
  function Paged(rows: seq<Post>, keep: Post -> bool, le: (Post, Post) -> bool,
                 page: Positive, limit: Positive): (r: Page)
    ensures forall p :: p in r.posts ==> p in rows && keep(p)
    ensures Seqs.TotalPreorder(le) ==> Seqs.SortedBy(r.posts, le)
    ensures |r.posts| <= limit
    ensures r.total == |Seqs.Filter(rows, keep)|
    ensures r.page == page && r.limit == limit
    ensures r.totalPages == CeilDiv(r.total, limit)
    ensures Seqs.TotalPreorder(le) ==> SortedWindow(r.posts, Seqs.Filter(rows, keep), le, page, limit)
  {
    var hits := Seqs.Filter(rows, keep);
    var sorted := Seqs.Sort(hits, le);
    var window := PageOf(sorted, page, limit);
    WindowSorted(hits, le, page, limit);
    WindowOfSort(hits, le, page, limit);
    assert forall p :: p in window ==> p in hits by {
      forall p | p in window ensures p in hits {
        assert p in sorted;
        assert p in multiset(sorted);
      }
    }
    Page(window, |hits|, page, limit, CeilDiv(|hits|, limit))
  }

  lemma PagedSorted(rows: seq<Post>, keep: Post -> bool, le: (Post, Post) -> bool, page: Positive, limit: Positive)
    requires Seqs.TotalPreorder(le)
    ensures Seqs.SortedBy(Paged(rows, keep, le, page, limit).posts, le)
    ensures SortedWindow(Paged(rows, keep, le, page, limit).posts, Seqs.Filter(rows, keep), le, page, limit)
  {
  }

  /** The sort's own output is one sorted arrangement of the hits. */
  lemma WindowOfSort(hits: seq<Post>, le: (Post, Post) -> bool, page: Positive, limit: Positive)
    ensures Seqs.TotalPreorder(le) ==> SortedWindow(PageOf(Seqs.Sort(hits, le), page, limit), hits, le, page, limit)
  {
    if Seqs.TotalPreorder(le) {
      Seqs.SortSorted(hits, le);
      var sorted := Seqs.Sort(hits, le);
      assert multiset(sorted) == multiset(hits) && Seqs.SortedBy(sorted, le);
    }
  }

  /** A page of a sorted sequence is sorted. */
  lemma WindowSorted(hits: seq<Post>, le: (Post, Post) -> bool, page: Positive, limit: Positive)
    ensures Seqs.TotalPreorder(le) ==> Seqs.SortedBy(PageOf(Seqs.Sort(hits, le), page, limit), le)
  {
    if Seqs.TotalPreorder(le) {
      var sorted := Seqs.Sort(hits, le);
      var window := PageOf(sorted, page, limit);
      Seqs.SortSorted(hits, le);
      forall i, j | 0 <= i < j < |window| ensures le(window[i], window[j]) {
        assert window[i] == sorted[Offset(page, limit) + i];
        assert window[j] == sorted[Offset(page, limit) + j];
      }
    }
  }

  /** The page that holds position `i` of a listing of `total` posts. */
  lemma PageOfPosition(i: nat, total: nat, limit: Positive) returns (page: Positive)
    requires i < total
    ensures Offset(page, limit) <= i < Offset(page, limit) + limit
    ensures page <= CeilDiv(total, limit)
  {
    var q := i / limit;
    page := q + 1;
    assert q * limit <= i < (q + 1) * limit;
    var pages := CeilDiv(total, limit);
    if pages <= q {
      MulMonotone(pages, q, limit);
    }
  }

  lemma MulMonotone(a: nat, b: nat, c: nat)
    requires a <= b
    ensures a * c <= b * c
  {
  }

  /** Paging loses nothing: every post the filter keeps is on some page
      between 1 and `totalPages`. */
  lemma PagedReachesEveryHit(rows: seq<Post>, keep: Post -> bool, le: (Post, Post) -> bool,
                             limit: Positive, p: Post) returns (page: Positive)
    requires p in rows && keep(p)
    ensures page <= Paged(rows, keep, le, 1, limit).totalPages
    ensures p in Paged(rows, keep, le, page, limit).posts
  {
    var hits := Seqs.Filter(rows, keep);
    var sorted := Seqs.Sort(hits, le);
    assert p in multiset(hits);
    assert p in sorted;
    var i :| 0 <= i < |sorted| && sorted[i] == p;
    page := PageOfPosition(i, |hits|, limit);
    assert p in PageOf(sorted, page, limit);
  }

  // ---------------------------------------------------------------------
  // Sort orders

  /** `sort({createdAt: -1})`. */
  function NewestFirst(): (le: (Post, Post) -> bool)
    ensures Seqs.TotalPreorder(le)
    ensures forall a: Post, b: Post :: le(a, b) <==> a.createdAt >= b.createdAt
  {
    (a: Post, b: Post) => a.createdAt >= b.createdAt
  }

  /** Ascending order on an optional value, a missing value lowest, as the
      store sorts a missing field. */
  predicate OptLe(x: Option<int>, y: Option<int>) {
    x.None? || (y.Some? && x.value <= y.value)
  }

  /** `sort({publishedAt: -1})`: latest first, never-published last. */
  function LatestFirst(): (le: (Post, Post) -> bool)
    ensures Seqs.TotalPreorder(le)
    ensures forall a: Post, b: Post :: le(a, b) <==> OptLe(b.publishedAt, a.publishedAt)
  {
    (a: Post, b: Post) => OptLe(b.publishedAt, a.publishedAt)
  }

  /** `sort({orderNo: 1, publishedAt: -1})`. */
  function FeaturedOrder(): (le: (Post, Post) -> bool)
    ensures Seqs.TotalPreorder(le)
    ensures forall a: Post, b: Post :: le(a, b) ==> OptLe(a.orderNo, b.orderNo)
    ensures forall a: Post, b: Post :: a.orderNo == b.orderNo ==> (le(a, b) <==> OptLe(b.publishedAt, a.publishedAt))
  {
    var byOrder := (a: Post, b: Post) => OptLe(a.orderNo, b.orderNo);
    Seqs.ThenByPreorder(byOrder, LatestFirst());
    Seqs.ThenBy(byOrder, LatestFirst())
  }

  // ---------------------------------------------------------------------
  // The listings

  /** `findAll`: the posts meeting every criterion the query sets, newest
      first, one page of them. */
  function FindAll(rows: seq<Post>, q: QueryParams): (r: Page)
    ensures forall p :: p in r.posts ==> p in rows && Matches(p, ListCriteria(q))
    ensures Seqs.SortedBy(r.posts, NewestFirst())
    ensures |r.posts| <= LimitParam(q)
    ensures r.total == |Seqs.Filter(rows, MatchesBy(ListCriteria(q)))|
    ensures r.page == PageParam(q) && r.limit == LimitParam(q)
    ensures r.totalPages == CeilDiv(r.total, r.limit)
    ensures SortedWindow(r.posts, Seqs.Filter(rows, MatchesBy(ListCriteria(q))), NewestFirst(), PageParam(q), LimitParam(q))
  {
    Paged(rows, MatchesBy(ListCriteria(q)), NewestFirst(), PageParam(q), LimitParam(q))
  }

  /** `findByAuthor`: the author condition is always the given id, whatever
      the query's own `author` says; status, search and tags apply as in
      `findAll`. */
  function FindByAuthor(rows: seq<Post>, authorId: Id, q: QueryParams): (r: Page)
    ensures forall p :: p in r.posts ==> p in rows && p.author == authorId
    ensures forall p :: p in r.posts ==> Matches(p, AuthorCriteria(authorId, q))
    ensures Seqs.SortedBy(r.posts, NewestFirst())
    ensures |r.posts| <= LimitParam(q)
    ensures r.total == |Seqs.Filter(rows, MatchesBy(AuthorCriteria(authorId, q)))|
    ensures r.page == PageParam(q) && r.limit == LimitParam(q)
    ensures r.totalPages == CeilDiv(r.total, r.limit)
    ensures SortedWindow(r.posts, Seqs.Filter(rows, MatchesBy(AuthorCriteria(authorId, q))), NewestFirst(), PageParam(q), LimitParam(q))
  {
    Paged(rows, MatchesBy(AuthorCriteria(authorId, q)), NewestFirst(), PageParam(q), LimitParam(q))
  }

  /** The filter `findByAuthor` builds: the given author, and the query's
      status, search and tags. */
  function AuthorCriteria(authorId: Id, q: QueryParams): (c: Criteria)
    ensures c.author == Some(authorId)
    ensures c.status == q.status && c.search == ListCriteria(q).search && c.tags == ListCriteria(q).tags
  {
    ListCriteria(q).(author := Some(authorId))
  }

  /** `findByTag`: the tag condition is always the one given tag, whatever
      the query's own `tags` say; status, author and search apply as in
      `findAll`. */
  function FindByTag(rows: seq<Post>, tag: string, q: QueryParams): (r: Page)
    ensures forall p :: p in r.posts ==> p in rows && tag in p.tags
    ensures forall p :: p in r.posts ==> Matches(p, TagCriteria(tag, q))
    ensures Seqs.SortedBy(r.posts, NewestFirst())
    ensures |r.posts| <= LimitParam(q)
    ensures r.total == |Seqs.Filter(rows, MatchesBy(TagCriteria(tag, q)))|
    ensures r.page == PageParam(q) && r.limit == LimitParam(q)
    ensures r.totalPages == CeilDiv(r.total, r.limit)
    ensures SortedWindow(r.posts, Seqs.Filter(rows, MatchesBy(TagCriteria(tag, q))), NewestFirst(), PageParam(q), LimitParam(q))
  {
    var c := TagCriteria(tag, q);
    assert forall p :: Matches(p, c) ==> tag in p.tags by {
      forall p | Matches(p, c) ensures tag in p.tags {
        var t :| t in [tag] && t in p.tags;
      }
    }
    Paged(rows, MatchesBy(c), NewestFirst(), PageParam(q), LimitParam(q))
  }

  /** The filter `findByTag` builds: the one given tag, and the query's
      status, author and search. */
  function TagCriteria(tag: string, q: QueryParams): (c: Criteria)
    ensures c.tags == Some([tag])
    ensures c.status == q.status && c.author == ListCriteria(q).author && c.search == ListCriteria(q).search
  {
    ListCriteria(q).(tags := Some([tag]))
  }

  /** Every post `findAll` selects is on one of its pages. */
  lemma FindAllReachesEveryMatch(rows: seq<Post>, q: QueryParams, p: Post) returns (page: Positive)
    requires p in rows && Matches(p, ListCriteria(q))
    ensures page <= FindAll(rows, q).totalPages
    ensures p in FindAll(rows, q.(page := Some(page))).posts
  {
    var keep := MatchesBy(ListCriteria(q));
    page := PagedReachesEveryHit(rows, keep, NewestFirst(), LimitParam(q), p);
    assert ListCriteria(q.(page := Some(page))) == ListCriteria(q);
    assert FindAll(rows, q.(page := Some(page))) == Paged(rows, keep, NewestFirst(), page, LimitParam(q));
  }

  /** Every post `findByAuthor` selects is on one of its pages. */
  lemma FindByAuthorReachesEveryMatch(rows: seq<Post>, authorId: Id, q: QueryParams, p: Post) returns (page: Positive)
    requires p in rows && Matches(p, AuthorCriteria(authorId, q))
    ensures page <= FindByAuthor(rows, authorId, q).totalPages
    ensures p in FindByAuthor(rows, authorId, q.(page := Some(page))).posts
  {
    var keep := MatchesBy(AuthorCriteria(authorId, q));
    page := PagedReachesEveryHit(rows, keep, NewestFirst(), LimitParam(q), p);
    assert AuthorCriteria(authorId, q.(page := Some(page))) == AuthorCriteria(authorId, q);
    assert FindByAuthor(rows, authorId, q.(page := Some(page))) == Paged(rows, keep, NewestFirst(), page, LimitParam(q));
  }

  /** Every post `findByTag` selects is on one of its pages. */
  lemma FindByTagReachesEveryMatch(rows: seq<Post>, tag: string, q: QueryParams, p: Post) returns (page: Positive)
    requires p in rows && Matches(p, TagCriteria(tag, q))
    ensures page <= FindByTag(rows, tag, q).totalPages
    ensures p in FindByTag(rows, tag, q.(page := Some(page))).posts
  {
    var keep := MatchesBy(TagCriteria(tag, q));
    page := PagedReachesEveryHit(rows, keep, NewestFirst(), LimitParam(q), p);
    assert TagCriteria(tag, q.(page := Some(page))) == TagCriteria(tag, q);
    assert FindByTag(rows, tag, q.(page := Some(page))) == Paged(rows, keep, NewestFirst(), page, LimitParam(q));
  }

  function IsPublished(): Post -> bool {
    (p: Post) => p.status == Published
  }

  /** `findPublished`: exactly the published posts, latest first. */
  function FindPublished(rows: seq<Post>): (r: seq<Post>)
    ensures forall p :: p in r <==> p in rows && p.status == Published
    ensures multiset(r) == multiset(Seqs.Filter(rows, IsPublished()))
    ensures |r| <= |rows|
    ensures Seqs.SortedBy(r, LatestFirst())
  {
    var hits := Seqs.Filter(rows, IsPublished());
    var r := Seqs.Sort(hits, LatestFirst());
    Seqs.SortSorted(hits, LatestFirst());
    assert forall p :: p in r <==> p in hits by {
      forall p ensures p in r <==> p in hits {
        assert p in r <==> p in multiset(r);
        assert p in hits <==> p in multiset(hits);
      }
    }
    r
  }

  // ---------------------------------------------------------------------
  // findByFilters

  /** Published, and not past its expiry: no `expiredAt`, or one later than
      the clock. */
  predicate Live(p: Post, now: Time) {
    p.status == Published && (p.expiredAt.None? || p.expiredAt.value > now)
  }

  /** Expiry only ever takes a post out: a post live at some time was live
      at every earlier time, a post is never live from its expiry on, and
      only published posts are live. */
  lemma LiveUntilExpiry(p: Post, now: Time, later: Time)
    ensures now <= later && Live(p, later) ==> Live(p, now)
    ensures p.expiredAt.Some? && p.expiredAt.value <= now ==> !Live(p, now)
    ensures Live(p, now) ==> p.status == Published
    ensures p.status == Published && p.expiredAt.None? ==> Live(p, now)
  {
  }

  /** The answer when a named category or placement does not exist: no
      posts, nothing to page through, the paging parameters echoed. */
  function EmptyPage(q: QueryParams): (r: Page)
    ensures r.posts == [] && r.total == 0 && r.totalPages == 0
    ensures r.page == PageParam(q) && r.limit == LimitParam(q)
  {
    Page([], 0, PageParam(q), LimitParam(q), 0)
  }

  /** The condition `findByFilters` puts on a post once the names are
      resolved: live, and of the resolved category and placement if any. */
  predicate Featured(p: Post, now: Time, category: Option<Id>, placement: Option<Id>) {
    && Live(p, now)
    && (category.Some? ==> p.category == category.value)
    && (placement.Some? ==> p.placement == placement.value)
  }

  function FeaturedBy(now: Time, category: Option<Id>, placement: Option<Id>): Post -> bool {
    (p: Post) => Featured(p, now, category, placement)
  }

  /** The page of featured posts, by `orderNo` and then latest first. */
  function FeaturedPage(rows: seq<Post>, now: Time, category: Option<Id>, placement: Option<Id>,
                        q: QueryParams): (r: Page)
    ensures forall p :: p in r.posts ==> p in rows && Featured(p, now, category, placement)
    ensures Seqs.SortedBy(r.posts, FeaturedOrder())
    ensures |r.posts| <= LimitParam(q)
    ensures r.total == |Seqs.Filter(rows, FeaturedBy(now, category, placement))|
    ensures r.page == PageParam(q) && r.limit == LimitParam(q)
    ensures r.totalPages == CeilDiv(r.total, r.limit)
    ensures SortedWindow(r.posts, Seqs.Filter(rows, FeaturedBy(now, category, placement)), FeaturedOrder(), PageParam(q), LimitParam(q))
  {
    var keep := FeaturedBy(now, category, placement);
    FeaturedPaged(rows, keep, PageParam(q), LimitParam(q));
    Paged(rows, keep, FeaturedOrder(), PageParam(q), LimitParam(q))
  }

  /** `Paged` in featured order: sorted, and a window of the sorted hits. */
  lemma FeaturedPaged(rows: seq<Post>, keep: Post -> bool, page: Positive, limit: Positive)
    ensures Seqs.SortedBy(Paged(rows, keep, FeaturedOrder(), page, limit).posts, FeaturedOrder())
    ensures SortedWindow(Paged(rows, keep, FeaturedOrder(), page, limit).posts, Seqs.Filter(rows, keep), FeaturedOrder(), page, limit)
  {
    var byOrder := (a: Post, b: Post) => OptLe(a.orderNo, b.orderNo);
    Seqs.ThenByPreorder(byOrder, LatestFirst());
    PagedSorted(rows, keep, Seqs.ThenBy(byOrder, LatestFirst()), page, limit);
  }

  /** Every live post of the chosen category and placement is on one of the
      featured pages. */
  lemma FeaturedPageReachesEveryMatch(rows: seq<Post>, now: Time, category: Option<Id>, placement: Option<Id>,
                                      q: QueryParams, p: Post) returns (page: Positive)
    requires p in rows && Featured(p, now, category, placement)
    ensures page <= FeaturedPage(rows, now, category, placement, q).totalPages
    ensures p in FeaturedPage(rows, now, category, placement, q.(page := Some(page))).posts
  {
    var keep := FeaturedBy(now, category, placement);
    page := PagedReachesEveryHit(rows, keep, FeaturedOrder(), LimitParam(q), p);
    assert FeaturedPage(rows, now, category, placement, q.(page := Some(page))) == Paged(rows, keep, FeaturedOrder(), page, LimitParam(q));
  }

  /** The id a name resolves to; no name is no condition. */
  function Resolved(name: string, byName: string -> Option<Id>): (r: Option<Id>)
    ensures name == "" ==> r.None?
    ensures name != "" ==> r == byName(name)
  {
    if name != "" then byName(name) else None
  }

  /** Some non-empty name resolves to nothing. */
  predicate Unresolved(categoryName: string, placementName: string,
                       categoryByName: string -> Option<Id>, placementByName: string -> Option<Id>) {
    || (categoryName != "" && categoryByName(categoryName).None?)
    || (placementName != "" && placementByName(placementName).None?)
  }

  /** `findByFilters`. A non-empty category or placement name is resolved by
      `categoryByName` / `placementByName` (the lookup by name is not part of
      this model); a name that resolves to nothing gives `EmptyPage`.
      Otherwise: the live posts of that category and placement, by `orderNo`
      and then latest first, one page of them. */
  function FindByFilters(rows: seq<Post>, categoryName: string, placementName: string,
                         categoryByName: string -> Option<Id>, placementByName: string -> Option<Id>,
                         q: QueryParams, now: Time): (r: Page)
    ensures Unresolved(categoryName, placementName, categoryByName, placementByName) ==> r == EmptyPage(q)
    ensures !Unresolved(categoryName, placementName, categoryByName, placementByName) ==>
              var keep := FeaturedBy(now, Resolved(categoryName, categoryByName), Resolved(placementName, placementByName));
              && r.total == |Seqs.Filter(rows, keep)|
              && SortedWindow(r.posts, Seqs.Filter(rows, keep), FeaturedOrder(), PageParam(q), LimitParam(q))
    ensures forall p :: p in r.posts ==> p in rows && Live(p, now)
    ensures categoryName != "" ==> forall p :: p in r.posts ==> Some(p.category) == categoryByName(categoryName)
    ensures placementName != "" ==> forall p :: p in r.posts ==> Some(p.placement) == placementByName(placementName)
    ensures Seqs.SortedBy(r.posts, FeaturedOrder())
    ensures |r.posts| <= LimitParam(q)
    ensures r.page == PageParam(q) && r.limit == LimitParam(q)
    ensures r.totalPages == CeilDiv(r.total, r.limit)
  {
    if categoryName != "" && categoryByName(categoryName).None? then EmptyPage(q)
    else if placementName != "" && placementByName(placementName).None? then EmptyPage(q)
    else
      var category := Resolved(categoryName, categoryByName);
      var placement := Resolved(placementName, placementByName);
      var r := FeaturedPage(rows, now, category, placement, q);
      assert categoryName != "" ==> category == categoryByName(categoryName);
      assert placementName != "" ==> placement == placementByName(placementName);
      r
  }

  /** With no names given, `findByFilters` pages through all live posts. */
  lemma FindByFiltersUnnamed(rows: seq<Post>, byName: string -> Option<Id>, q: QueryParams, now: Time)
    ensures FindByFilters(rows, "", "", byName, byName, q, now).total
            == |Seqs.Filter(rows, (p: Post) => Live(p, now))|
  {
    Seqs.FilterAgree(rows, FeaturedBy(now, None, None), (p: Post) => Live(p, now));
  }
}
