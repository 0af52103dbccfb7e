/** The post store and the posts service's writes: create, update, remove
    and the view counter, with the category and placement post counters the
    service keeps alongside. Every operation is a function from the store
    before to the store after; `now` stands for the clock. */
module Posts {
  import opened Wrappers
  import opened Ids
  import Categories
  import Placements
  import Seqs

  /** A point in time, in milliseconds. */
  type Time = int

  datatype PostStatus = Draft | Published | Archived

  datatype Post = Post(
    title: string,
    slug: string,
    excerpt: Option<string>,
    content: string,
    status: PostStatus,
    author: Id,
    category: Id,
    placement: Id,
    tags: seq<string>,
    viewCount: int,
    orderNo: Option<int>,
    createdAt: Time,
    publishedAt: Option<Time>,
    expiredAt: Option<Time>)

  /** The body of a create request. An empty `category` or `placement` is a
      missing one. */
  datatype PostDraft = PostDraft(
    title: string,
    slug: string,
    excerpt: Option<string>,
    content: string,
    status: Option<PostStatus>,
    category: Id,
    placement: Id,
    tags: Option<seq<string>>,
    orderNo: Option<int>,
    publishedAt: Option<Time>,
    expiredAt: Option<Time>)

  /** The body of an update request: every field optional. */
  datatype PostPatch = PostPatch(
    title: Option<string>,
    slug: Option<string>,
    excerpt: Option<string>,
    content: Option<string>,
    status: Option<PostStatus>,
    author: Option<Id>,
    category: Option<Id>,
    placement: Option<Id>,
    tags: Option<seq<string>>,
    viewCount: Option<int>,
    publishedAt: Option<Time>)

  datatype Store = Store(
    posts: map<Id, Post>,
    categories: Categories.Registry,
    placements: Placements.Registry)

  // ---------------------------------------------------------------------
  // Counters, as plain maps from id to count

  function CategoryCounts(reg: Categories.Registry): (m: map<Id, int>)
    ensures m.Keys == reg.Keys
    ensures forall k :: k in m ==> m[k] == reg[k].postCount
  {
    map k | k in reg :: reg[k].postCount
  }

  function PlacementCounts(reg: Placements.Registry): (m: map<Id, int>)
    ensures m.Keys == reg.Keys
    ensures forall k :: k in m ==> m[k] == reg[k].postCount
  {
    map k | k in reg :: reg[k].postCount
  }

  /** `after` is `before` with `delta` added to the counter of `target`, if
      there is one, and every other counter as it was. */
  predicate Raised(before: map<Id, int>, after: map<Id, int>, target: Id, delta: int) {
    && after.Keys == before.Keys
    && forall k :: k in before ==> after[k] == before[k] + (if k == target then delta else 0)
  }

  /** Only counters differ: every category keeps its other fields. */
  predicate CategoryCountsOnly(before: Categories.Registry, after: Categories.Registry) {
    && after.Keys == before.Keys
    && forall k :: k in before ==> after[k] == before[k].(postCount := after[k].postCount)
  }

  /** Only counters differ: every placement keeps its other fields. */
  predicate PlacementCountsOnly(before: Placements.Registry, after: Placements.Registry) {
    && after.Keys == before.Keys
    && forall k :: k in before ==> after[k] == before[k].(postCount := after[k].postCount)
  }

  /** One unit moved from the counter of `from` to that of `to`. */
  predicate Transferred(before: map<Id, int>, after: map<Id, int>, from: Id, to: Id) {
    && after.Keys == before.Keys
    && forall k :: k in before ==>
         after[k] == before[k] - (if k == from then 1 else 0) + (if k == to then 1 else 0)
  }

  // ---------------------------------------------------------------------
  // create

  /** Some stored post already uses `slug`. */
  predicate SlugTaken(posts: map<Id, Post>, slug: string) {
    exists k :: k in posts && posts[k].slug == slug
  }

  /** `p` is the post `create` builds from `draft`: the author is the caller,
      the status defaults to draft, `publishedAt` is the clock whenever the
      status is published, and the view counter starts at 0. */
  predicate Created(draft: PostDraft, authorId: Id, now: Time, p: Post) {
    && p.title == draft.title && p.slug == draft.slug && p.excerpt == draft.excerpt
    && p.content == draft.content
    && p.status == (if draft.status.Some? then draft.status.value else Draft)
    && p.author == authorId
    && p.category == draft.category && p.placement == draft.placement
    && p.tags == (if draft.tags.Some? then draft.tags.value else [])
    && p.viewCount == 0
    && p.orderNo == draft.orderNo
    && p.createdAt == now
    && p.publishedAt == (if draft.status == Some(Published) then Some(now) else draft.publishedAt)
    && p.expiredAt == draft.expiredAt
  }

  function NewPost(draft: PostDraft, authorId: Id, now: Time): (p: Post)
    ensures Created(draft, authorId, now, p)
  {
    var status := draft.status.GetOr(Draft);
    Post(draft.title, draft.slug, draft.excerpt, draft.content, status, authorId,
         draft.category, draft.placement, draft.tags.GetOr([]), 0, draft.orderNo, now,
         if status == Published && draft.status.Some? then Some(now) else draft.publishedAt,
         draft.expiredAt)
  }

  /** `create` under the fresh id `id` the store assigns. The checks run in
      the order author, placement, category, slug; the first that fails
      decides the error. A category or placement id that names nothing is
      not checked. */
  function Create(s: Store, id: Id, draft: PostDraft, authorId: Id, now: Time): (r: Result<Store>)
    requires id !in s.posts
    ensures authorId == "" ==> r == Err(Conflict(AuthorRequired))
    ensures authorId != "" && draft.placement == "" ==> r == Err(Conflict(PlacementRequired))
    ensures (authorId != "" && draft.placement != "" && draft.category == "")
            ==> r == Err(Conflict(CategoryRequired))
    ensures (authorId != "" && draft.placement != "" && draft.category != ""
             && SlugTaken(s.posts, draft.slug))
            ==> r == Err(Conflict(DuplicateSlug))
    ensures r.Ok? <==> authorId != "" && draft.placement != "" && draft.category != ""
                       && !SlugTaken(s.posts, draft.slug)
    ensures r.Ok? ==> r.value.posts.Keys == s.posts.Keys + {id}
    ensures r.Ok? ==> forall k :: k in s.posts ==> r.value.posts[k] == s.posts[k]
    ensures r.Ok? ==> Created(draft, authorId, now, r.value.posts[id])
    ensures r.Ok? ==> Raised(CategoryCounts(s.categories), CategoryCounts(r.value.categories), draft.category, 1)
    ensures r.Ok? ==> Raised(PlacementCounts(s.placements), PlacementCounts(r.value.placements), draft.placement, 1)
    ensures r.Ok? ==> CategoryCountsOnly(s.categories, r.value.categories)
    ensures r.Ok? ==> PlacementCountsOnly(s.placements, r.value.placements)
  {
    if authorId == "" then Err(Conflict(AuthorRequired))
    else if draft.placement == "" then Err(Conflict(PlacementRequired))
    else if draft.category == "" then Err(Conflict(CategoryRequired))
    else if SlugTaken(s.posts, draft.slug) then Err(Conflict(DuplicateSlug))
    else
      Ok(Store(
        s.posts[id := NewPost(draft, authorId, now)],
        Categories.Increment(s.categories, draft.category),
        Placements.Increment(s.placements, draft.placement)))
  }

  /** A published draft gets the clock as `publishedAt`, whatever the request
      carried. */
  lemma CreateStampsPublished(s: Store, id: Id, draft: PostDraft, authorId: Id, now: Time)
    requires id !in s.posts
    requires draft.status == Some(Published)
    requires Create(s, id, draft, authorId, now).Ok?
    ensures Create(s, id, draft, authorId, now).value.posts[id].publishedAt == Some(now)
  {
  }

  // ---------------------------------------------------------------------
  // update

  /** The id a patch sets, if it sets one: an empty id counts as absent. */
  function NewRef(patched: Option<Id>, current: Id): (r: Id)
    ensures patched.Some? && patched.value != "" ==> r == patched.value
    ensures (patched.None? || patched.value == "") ==> r == current
  {
    if patched.Some? && patched.value != "" then patched.value else current
  }

  /** The patch names a reference different from the stored one; only then
      does `update` move a counter. */
  predicate Moves(patched: Option<Id>, current: Id) {
    patched.Some? && patched.value != "" && patched.value != current
  }

  /** The patch after the service's one rewrite: a patch that publishes
      without a `publishedAt` gets the clock. */
  function Stamped(patch: PostPatch, now: Time): (r: PostPatch)
    ensures patch.status == Some(Published) && patch.publishedAt.None? ==> r.publishedAt == Some(now)
    ensures !(patch.status == Some(Published) && patch.publishedAt.None?) ==> r == patch
    ensures r == patch.(publishedAt := r.publishedAt)
  {
    if patch.status == Some(Published) && patch.publishedAt.None? then
      patch.(publishedAt := Some(now))
    else patch
  }

  /** `q` is `p` with every field the patch carries set and the rest kept. */
  predicate PatchApplied(p: Post, patch: PostPatch, q: Post) {
    && q.title == (if patch.title.Some? then patch.title.value else p.title)
    && q.slug == (if patch.slug.Some? then patch.slug.value else p.slug)
    && q.excerpt == (if patch.excerpt.Some? then patch.excerpt else p.excerpt)
    && q.content == (if patch.content.Some? then patch.content.value else p.content)
    && q.status == (if patch.status.Some? then patch.status.value else p.status)
    && q.author == (if patch.author.Some? then patch.author.value else p.author)
    && q.category == NewRef(patch.category, p.category)
    && q.placement == NewRef(patch.placement, p.placement)
    && q.tags == (if patch.tags.Some? then patch.tags.value else p.tags)
    && q.viewCount == (if patch.viewCount.Some? then patch.viewCount.value else p.viewCount)
    && q.publishedAt == (if patch.publishedAt.Some? then patch.publishedAt else p.publishedAt)
    && q.orderNo == p.orderNo && q.createdAt == p.createdAt && q.expiredAt == p.expiredAt
  }

  function Patched(p: Post, patch: PostPatch): (q: Post)
    ensures PatchApplied(p, patch, q)
  {
    Post(
      patch.title.GetOr(p.title),
      patch.slug.GetOr(p.slug),
      if patch.excerpt.Some? then patch.excerpt else p.excerpt,
      patch.content.GetOr(p.content),
      patch.status.GetOr(p.status),
      patch.author.GetOr(p.author),
      NewRef(patch.category, p.category),
      NewRef(patch.placement, p.placement),
      patch.tags.GetOr(p.tags),
      patch.viewCount.GetOr(p.viewCount),
      p.orderNo,
      p.createdAt,
      if patch.publishedAt.Some? then patch.publishedAt else p.publishedAt,
      p.expiredAt)
  }

  /** A changed reference: one unit leaves the old id's counter and one
      arrives at the new id's. */
  function MoveCategory(reg: Categories.Registry, from: Id, patched: Option<Id>): (r: Categories.Registry)
    ensures Moves(patched, from) ==> Transferred(CategoryCounts(reg), CategoryCounts(r), from, patched.value)
    ensures !Moves(patched, from) ==> r == reg
    ensures CategoryCountsOnly(reg, r)
  {
    if Moves(patched, from) then Categories.Increment(Categories.Decrement(reg, from), patched.value)
    else reg
  }

  function MovePlacement(reg: Placements.Registry, from: Id, patched: Option<Id>): (r: Placements.Registry)
    ensures Moves(patched, from) ==> Transferred(PlacementCounts(reg), PlacementCounts(r), from, patched.value)
    ensures !Moves(patched, from) ==> r == reg
    ensures PlacementCountsOnly(reg, r)
  {
    if Moves(patched, from) then Placements.Increment(Placements.Decrement(reg, from), patched.value)
    else reg
  }

  /** `update`: NotFound for an unknown id. Otherwise the patch, stamped, is
      applied to that one post, and a counter moves only for a reference the
      patch changes. */
  function Update(s: Store, id: Id, patch: PostPatch, now: Time): (r: Result<Store>)
    ensures r.Err? <==> id !in s.posts
    ensures r.Err? ==> r.error == NotFound
    ensures r.Ok? ==> r.value.posts.Keys == s.posts.Keys
    ensures r.Ok? ==> forall k :: k in s.posts && k != id ==> r.value.posts[k] == s.posts[k]
    ensures r.Ok? ==> PatchApplied(s.posts[id], Stamped(patch, now), r.value.posts[id])
    ensures r.Ok? && patch.status == Some(Published) && patch.publishedAt.None?
            ==> r.value.posts[id].publishedAt == Some(now)
    ensures r.Ok? && !Moves(patch.category, s.posts[id].category) ==> r.value.categories == s.categories
    ensures r.Ok? && Moves(patch.category, s.posts[id].category) ==>
              Transferred(CategoryCounts(s.categories), CategoryCounts(r.value.categories),
                          s.posts[id].category, patch.category.value)
    ensures r.Ok? && !Moves(patch.placement, s.posts[id].placement) ==> r.value.placements == s.placements
    ensures r.Ok? && Moves(patch.placement, s.posts[id].placement) ==>
              Transferred(PlacementCounts(s.placements), PlacementCounts(r.value.placements),
                          s.posts[id].placement, patch.placement.value)
    ensures r.Ok? ==> CategoryCountsOnly(s.categories, r.value.categories)
    ensures r.Ok? ==> PlacementCountsOnly(s.placements, r.value.placements)
  {
    if id !in s.posts then Err(NotFound)
    else
      var existing := s.posts[id];
      Ok(Store(
        s.posts[id := Patched(existing, Stamped(patch, now))],
        MoveCategory(s.categories, existing.category, patch.category),
        MovePlacement(s.placements, existing.placement, patch.placement)))
  }

  /** Publishing again re-stamps: a stored `publishedAt` is replaced by the
      clock when the patch publishes without one. */
  lemma UpdateRestampsPublished(s: Store, id: Id, patch: PostPatch, now: Time)
    requires id in s.posts && s.posts[id].publishedAt.Some? && s.posts[id].publishedAt != Some(now)
    requires patch.status == Some(Published) && patch.publishedAt.None?
    ensures Update(s, id, patch, now).value.posts[id].publishedAt != s.posts[id].publishedAt
  {
  }

  // ---------------------------------------------------------------------
  // remove and incrementViewCount

  /** `remove`: NotFound for an unknown id; otherwise the post is gone and its
      category's and placement's counters each drop by one. */
  function Remove(s: Store, id: Id): (r: Result<Store>)
    ensures r.Err? <==> id !in s.posts
    ensures r.Err? ==> r.error == NotFound
    ensures r.Ok? ==> r.value.posts.Keys == s.posts.Keys - {id}
    ensures r.Ok? ==> forall k :: k in r.value.posts ==> r.value.posts[k] == s.posts[k]
    ensures r.Ok? ==> Raised(CategoryCounts(s.categories), CategoryCounts(r.value.categories), s.posts[id].category, -1)
    ensures r.Ok? ==> Raised(PlacementCounts(s.placements), PlacementCounts(r.value.placements), s.posts[id].placement, -1)
    ensures r.Ok? ==> CategoryCountsOnly(s.categories, r.value.categories)
    ensures r.Ok? ==> PlacementCountsOnly(s.placements, r.value.placements)
  {
    if id !in s.posts then Err(NotFound)
    else
      var p := s.posts[id];
      Ok(Store(
        s.posts - {id},
        Categories.Decrement(s.categories, p.category),
        Placements.Decrement(s.placements, p.placement)))
  }

  /** `incrementViewCount`: NotFound for an unknown id; otherwise that post's
      view counter goes up by one and nothing else changes. */
  function IncrementViewCount(s: Store, id: Id): (r: Result<Store>)
    ensures r.Err? <==> id !in s.posts
    ensures r.Err? ==> r.error == NotFound
    ensures r.Ok? ==> r.value.posts.Keys == s.posts.Keys
    ensures r.Ok? ==> r.value.posts[id].viewCount == s.posts[id].viewCount + 1
    ensures r.Ok? ==> r.value.posts[id] == s.posts[id].(viewCount := r.value.posts[id].viewCount)
    ensures r.Ok? ==> forall k :: k in s.posts && k != id ==> r.value.posts[k] == s.posts[k]
    ensures r.Ok? ==> r.value.categories == s.categories && r.value.placements == s.placements
  {
    if id !in s.posts then Err(NotFound)
    else
      var p := s.posts[id];
      Ok(s.(posts := s.posts[id := p.(viewCount := p.viewCount + 1)]))
  }

  /** `findOne`: the stored post, or NotFound. */
  function FindOne(s: Store, id: Id): (r: Result<Post>)
    ensures r.Ok? <==> id in s.posts
    ensures r.Ok? ==> r.value == s.posts[id]
    ensures r.Err? ==> r.error == NotFound
  {
    if id in s.posts then Ok(s.posts[id]) else Err(NotFound)
  }

  /** `findBySlug`: the first post in natural order with that slug, or
      NotFound when none has it. */
  function FindBySlug(s: Store, order: seq<Id>, slug: string): (r: Result<Post>)
    requires NaturalOrder(order, s.posts)
    ensures r.Ok? <==> SlugTaken(s.posts, slug)
    ensures r.Ok? ==> r.value.slug == slug && exists k :: k in s.posts && s.posts[k] == r.value
    ensures r.Err? ==> r.error == NotFound
  {
    var i := Seqs.FirstIndex(order, (k: Id) => k in s.posts && s.posts[k].slug == slug);
    if i < |order| then Ok(s.posts[order[i]])
    else
      assert !SlugTaken(s.posts, slug) by {
        forall k | k in s.posts ensures s.posts[k].slug != slug {
          var j :| 0 <= j < |order| && order[j] == k;
        }
      }
      Err(NotFound)
  }

  // ---------------------------------------------------------------------
  // The counter invariant

  datatype Link = ToCategory | ToPlacement

  function Target(p: Post, link: Link): Id {
    match link
    case ToCategory => p.category
    case ToPlacement => p.placement
  }

  /** The ids of the posts whose `link` reference is `target`. */
  function Referrers(posts: map<Id, Post>, link: Link, target: Id): (r: set<Id>)
    ensures forall k :: k in r <==> k in posts && Target(posts[k], link) == target
  {
    set k | k in posts && Target(posts[k], link) == target
  }

  function CountRefs(posts: map<Id, Post>, link: Link, target: Id): nat {
    |Referrers(posts, link, target)|
  }

  /** Every existing category's and placement's counter equals the number of
      posts that reference it. */
  predicate CountersConsistent(s: Store) {
    && (forall c :: c in s.categories ==> s.categories[c].postCount == CountRefs(s.posts, ToCategory, c))
    && (forall c :: c in s.placements ==> s.placements[c].postCount == CountRefs(s.posts, ToPlacement, c))
  }

  lemma CountInsert(posts: map<Id, Post>, id: Id, p: Post, link: Link, target: Id)
    requires id !in posts
    ensures CountRefs(posts[id := p], link, target)
            == CountRefs(posts, link, target) + (if Target(p, link) == target then 1 else 0)
  {
    var before := Referrers(posts, link, target);
    ReferrersInsert(posts, id, p, link, target);
    assert id !in before;
  }

  lemma ReferrersInsert(posts: map<Id, Post>, id: Id, p: Post, link: Link, target: Id)
    requires id !in posts
    ensures Referrers(posts[id := p], link, target)
            == Referrers(posts, link, target) + (if Target(p, link) == target then {id} else {})
  {
    var before := Referrers(posts, link, target);
    var after := Referrers(posts[id := p], link, target);
    var added: set<Id> := if Target(p, link) == target then {id} else {};
    forall k ensures k in after <==> k in before + added {
      if k == id {
        assert k in after <==> Target(p, link) == target;
      } else {
        assert k in after <==> k in before;
      }
    }
  }

  lemma CountRemove(posts: map<Id, Post>, id: Id, link: Link, target: Id)
    requires id in posts
    ensures CountRefs(posts - {id}, link, target)
            == CountRefs(posts, link, target) - (if Target(posts[id], link) == target then 1 else 0)
  {
    var before := Referrers(posts, link, target);
    var after := Referrers(posts - {id}, link, target);
    assert after == before - {id};
  }

  lemma CountReplace(posts: map<Id, Post>, id: Id, p: Post, link: Link, target: Id)
    requires id in posts
    ensures CountRefs(posts[id := p], link, target)
            == CountRefs(posts, link, target)
               - (if Target(posts[id], link) == target then 1 else 0)
               + (if Target(p, link) == target then 1 else 0)
  {
    var rest := posts - {id};
    assert posts[id := p] == rest[id := p];
    CountRemove(posts, id, link, target);
    CountInsert(rest, id, p, link, target);
  }

  lemma CreateKeepsCounters(s: Store, id: Id, draft: PostDraft, authorId: Id, now: Time)
    requires id !in s.posts
    requires CountersConsistent(s)
    requires Create(s, id, draft, authorId, now).Ok?
    ensures CountersConsistent(Create(s, id, draft, authorId, now).value)
  {
    CreateKeepsCategoryCounters(s, id, draft, authorId, now);
    CreateKeepsPlacementCounters(s, id, draft, authorId, now);
  }

  lemma CreateKeepsCategoryCounters(s: Store, id: Id, draft: PostDraft, authorId: Id, now: Time)
    requires id !in s.posts
    requires CountersConsistent(s)
    requires Create(s, id, draft, authorId, now).Ok?
    ensures var t := Create(s, id, draft, authorId, now).value;
            forall c :: c in t.categories ==> t.categories[c].postCount == CountRefs(t.posts, ToCategory, c)
  {
    var t := Create(s, id, draft, authorId, now).value;
    var p := t.posts[id];
    assert t.posts == s.posts[id := p];
    forall c | c in t.categories
      ensures t.categories[c].postCount == CountRefs(t.posts, ToCategory, c)
    {
      CountInsert(s.posts, id, p, ToCategory, c);
      assert CategoryCounts(t.categories)[c] == CategoryCounts(s.categories)[c] + (if c == draft.category then 1 else 0);
    }
  }

  lemma CreateKeepsPlacementCounters(s: Store, id: Id, draft: PostDraft, authorId: Id, now: Time)
    requires id !in s.posts
    requires CountersConsistent(s)
    requires Create(s, id, draft, authorId, now).Ok?
    ensures var t := Create(s, id, draft, authorId, now).value;
            forall c :: c in t.placements ==> t.placements[c].postCount == CountRefs(t.posts, ToPlacement, c)
  {
    var t := Create(s, id, draft, authorId, now).value;
    var p := t.posts[id];
    assert t.posts == s.posts[id := p];
    forall c | c in t.placements
      ensures t.placements[c].postCount == CountRefs(t.posts, ToPlacement, c)
    {
      CountInsert(s.posts, id, p, ToPlacement, c);
      assert PlacementCounts(t.placements)[c] == PlacementCounts(s.placements)[c] + (if c == draft.placement then 1 else 0);
    }
  }

  lemma UpdateKeepsCounters(s: Store, id: Id, patch: PostPatch, now: Time)
    requires CountersConsistent(s)
    requires id in s.posts
    ensures CountersConsistent(Update(s, id, patch, now).value)
  {
    UpdateKeepsCategoryCounters(s, id, patch, now);
    UpdateKeepsPlacementCounters(s, id, patch, now);
  }

  lemma UpdateKeepsCategoryCounters(s: Store, id: Id, patch: PostPatch, now: Time)
    requires CountersConsistent(s)
    requires id in s.posts
    ensures var t := Update(s, id, patch, now).value;
            forall c :: c in t.categories ==> t.categories[c].postCount == CountRefs(t.posts, ToCategory, c)
  {
    var t := Update(s, id, patch, now).value;
    var prior := s.posts[id];
    var p := t.posts[id];
    assert t.posts == s.posts[id := p];
    forall c | c in t.categories
      ensures t.categories[c].postCount == CountRefs(t.posts, ToCategory, c)
    {
      CountReplace(s.posts, id, p, ToCategory, c);
      if Moves(patch.category, prior.category) {
        assert CategoryCounts(t.categories)[c] == CategoryCounts(s.categories)[c]
          - (if c == prior.category then 1 else 0) + (if c == patch.category.value then 1 else 0);
      }
    }
  }

  lemma UpdateKeepsPlacementCounters(s: Store, id: Id, patch: PostPatch, now: Time)
    requires CountersConsistent(s)
    requires id in s.posts
    ensures var t := Update(s, id, patch, now).value;
            forall c :: c in t.placements ==> t.placements[c].postCount == CountRefs(t.posts, ToPlacement, c)
  {
    var t := Update(s, id, patch, now).value;
    var prior := s.posts[id];
    var p := t.posts[id];
    assert t.posts == s.posts[id := p];
    forall c | c in t.placements
      ensures t.placements[c].postCount == CountRefs(t.posts, ToPlacement, c)
    {
      CountReplace(s.posts, id, p, ToPlacement, c);
      if Moves(patch.placement, prior.placement) {
        assert PlacementCounts(t.placements)[c] == PlacementCounts(s.placements)[c]
          - (if c == prior.placement then 1 else 0) + (if c == patch.placement.value then 1 else 0);
      }
    }
  }

  lemma RemoveKeepsCounters(s: Store, id: Id)
    requires CountersConsistent(s)
    requires id in s.posts
    ensures CountersConsistent(Remove(s, id).value)
  {
    var t := Remove(s, id).value;
    var prior := s.posts[id];
    assert t.posts == s.posts - {id};
    forall c | c in t.categories
      ensures t.categories[c].postCount == CountRefs(t.posts, ToCategory, c)
    {
      CountRemove(s.posts, id, ToCategory, c);
      assert CategoryCounts(t.categories)[c] == CategoryCounts(s.categories)[c] - (if c == prior.category then 1 else 0);
    }
    forall c | c in t.placements
      ensures t.placements[c].postCount == CountRefs(t.posts, ToPlacement, c)
    {
      CountRemove(s.posts, id, ToPlacement, c);
      assert PlacementCounts(t.placements)[c] == PlacementCounts(s.placements)[c] - (if c == prior.placement then 1 else 0);
    }
  }

  lemma ViewCountKeepsCounters(s: Store, id: Id)
    requires CountersConsistent(s)
    requires id in s.posts
    ensures CountersConsistent(IncrementViewCount(s, id).value)
  {
    var t := IncrementViewCount(s, id).value;
    forall link, c ensures CountRefs(t.posts, link, c) == CountRefs(s.posts, link, c) {
      CountReplace(s.posts, id, t.posts[id], link, c);
      assert t.posts == s.posts[id := t.posts[id]];
    }
  }

  /** A new category starts at 0, so it keeps the invariant exactly when no
      post refers to its id yet. */
  lemma CategoryCreateKeepsCounters(s: Store, id: Id, input: Categories.NewCategory)
    requires CountersConsistent(s)
    requires id !in s.categories
    ensures CountersConsistent(s.(categories := Categories.Create(s.categories, id, input)))
            <==> CountRefs(s.posts, ToCategory, id) == 0
  {
  }

  lemma PlacementCreateKeepsCounters(s: Store, id: Id, input: Placements.NewPlacement)
    requires CountersConsistent(s)
    requires id !in s.placements
    ensures CountersConsistent(s.(placements := Placements.Create(s.placements, id, input)))
            <==> CountRefs(s.posts, ToPlacement, id) == 0
  {
  }

  /** Placement updates never touch the counter, and a removed placement
      leaves the others' counters as they were. */
  lemma PlacementChangesKeepCounters(s: Store, id: Id, patch: Placements.PlacementPatch)
    requires CountersConsistent(s)
    ensures Placements.Update(s.placements, id, patch).Ok? ==>
              CountersConsistent(s.(placements := Placements.Update(s.placements, id, patch).value))
    ensures Placements.Remove(s.placements, id).Ok? ==>
              CountersConsistent(s.(placements := Placements.Remove(s.placements, id).value))
  {
  }
}
