# NestJS CMS — a Dafny model of its content core

This project models the content core of a small CMS. The backend is a
NestJS service over MongoDB. It keeps posts, categories and placements;
a placement is a named slot of the site such as the top navigation or a
sidebar. The admin client is an Angular app. The model covers these parts:

- **Registries** (`Categories`, `Placements`). Create, find, update and
  remove, the listing order of placements, and the per-category and
  per-placement `postCount` counters that the posts service raises and
  lowers.
- **Posts** (`Posts`, `PostQueries`). Creating, updating, removing and
  viewing a post, with the counter bookkeeping each one does. Also the
  filtered, sorted and paginated listings: all posts, by author, by tag,
  published posts, and featured posts by category and placement names.
  The model proves that the counters stay equal to the number of posts
  that point at each category and placement.
- **Envelopes** (`ResponseInterceptor`, `ExceptionFilter`). The
  `{success, data, message, timestamp}` wrapper put around every
  successful result. The error envelope, status code and log level for
  anything thrown.
- **Client guards** (`Permissions`). Role checks for posts, categories,
  placements and users. The user page's self-protection. Role names,
  labels and colours.
- **Client forms and pages** (`PostForm`, `CategoryForm`,
  `PlacementsPage`, `Pagination`):
  - the tag editor, the post form's population and submission;
  - the category form's validators and error messages;
  - the placements filter;
  - the page-number row with its ellipses.
- **Slugs** (`Slugs`, `Text`). Both slug generators in the code base.
  The services' generator lower-cases, drops other characters and
  collapses spaces and hyphens. The category form's generator also trims
  and folds `_` and whitespace. The model proves each one produces a
  slug that the form patterns accept, is idempotent, and keeps every
  letter and digit of the input, in order. It also proves where the two
  differ: a run of `_` or non-space whitespace between two slugs becomes
  one `-` in the form's slug and vanishes in the services' one.
- **Table lookups** (`ObjectLookup`). The client's label and colour
  helpers read an object literal as `table[key] || fallback`. A key every
  object inherits from `Object.prototype`, such as "constructor", finds
  the inherited member instead of the fallback.

Stores are maps from ids to records. A listing takes the ids in the
store's natural order as an extra argument (`Ids.NaturalOrder`). Sorting
is a stable insertion sort (`Seqs.Sort`) that takes a comparator. The
clock (`now`), fresh ids and the request's timestamp are parameters.

## Model

| member | source | states |
|---|---|---|
| Categories.Create | src/categories/categories.service.ts:10-13 | a new category is stored under the fresh id and no other category changes. Colour defaults to '#000000', it is active unless told otherwise, and its counter starts at 0 |
| Categories.FindAll | src/categories/categories.service.ts:15-17 | the listing holds every stored category and nothing else |
| Categories.FindOne | src/categories/categories.service.ts:19-25 | finds the category exactly when the id is stored; otherwise not-found |
| Categories.Increment | src/categories/categories.service.ts:27-31 | raises the one counter by one and changes nothing else; an unknown id changes nothing |
| Categories.Decrement | src/categories/categories.service.ts:33-37 | lowers the one counter by one and changes nothing else; an unknown id changes nothing |
| Categories.IncrementDecrementCancel | src/categories/categories.service.ts:27-37 | increment and decrement undo each other, in either order |
| Categories.DecrementUnclamped | src/categories/categories.service.ts:33-37 | a counter at 0 goes to -1: nothing clamps it |
| Placements.WireNameInjective | src/placements/placement.schema.ts:6-15 | distinct sub-categories have distinct stored strings |
| Placements.Create | src/placements/placements.service.ts:13-16 | a new placement is stored under the fresh id. Colour defaults to '#3498db' and sort order to 0, it is active unless told otherwise, and its counter starts at 0 |
| Placements.ListingOrder | src/placements/placements.service.ts:18-23 | listings order by sortOrder, and by name among equal sortOrders |
| Placements.ListingOrderPreorder | src/placements/placements.service.ts:18-23 | the listing order is a total preorder, so the sort is well defined |
| Placements.Listed | src/placements/placements.service.ts:18-30 | a listing is exactly the kept placements, each once, sorted by the listing order |
| Placements.FindAll | src/placements/placements.service.ts:18-23 | lists exactly the active placements, in listing order |
| Placements.FindAllWithInactive | src/placements/placements.service.ts:25-30 | lists every placement once, in listing order |
| Placements.FindBySubCategory | src/placements/placements.service.ts:48-53 | lists exactly the active placements of that sub-category, in listing order |
| Placements.SubCategoryNarrowsFindAll | src/placements/placements.service.ts:48-53 | the sub-category listing is the active listing restricted to that sub-category |
| Placements.FindOne | src/placements/placements.service.ts:32-38 | finds the placement exactly when the id is stored; otherwise not-found |
| Placements.FindBySlug | src/placements/placements.service.ts:40-46 | succeeds exactly when some placement has the slug, and returns one with that slug |
| Placements.Patched | src/placements/placements.service.ts:55-65 | each given field replaces the stored one, every other field and the counter are kept, and an empty patch changes nothing |
| Placements.Update | src/placements/placements.service.ts:55-65 | not-found exactly for an unknown id; otherwise only that placement changes, by the patch, and its counter is kept |
| Placements.UpdateEmptyPatch | src/placements/placements.service.ts:55-65 | an empty patch leaves the registry as it was |
| Placements.Remove | src/placements/placements.service.ts:67-72 | not-found exactly for an unknown id; otherwise exactly that placement is gone and the others are unchanged |
| Placements.Increment | src/placements/placements.service.ts:74-78 | raises the one counter by one and changes nothing else |
| Placements.Decrement | src/placements/placements.service.ts:80-84 | lowers the one counter by one and changes nothing else |
| Placements.IncrementDecrementCancel | src/placements/placements.service.ts:74-84 | increment and decrement undo each other |
| Posts.NewPost | src/posts/posts.service.ts:63-73 | the stored post carries the request's fields, the author, the creation time and no views. Status defaults to draft, and a post created as published is stamped with the current time |
| Posts.Create | src/posts/posts.service.ts:39-84 | errors, in the source's order: missing author, missing placement, missing category, slug taken. Succeeds exactly when none applies; then only the new post is added, its category's and placement's counters each rise by one, and every category and placement keeps all its other fields |
| Posts.CreateStampsPublished | src/posts/posts.service.ts:70-73 | a post created as published is stamped with the creation time, even when the request gave its own publishedAt |
| Posts.NewRef | src/posts/posts.service.ts:286-292 | a non-empty id in the patch replaces the reference; an empty or absent one keeps it |
| Posts.Stamped | src/posts/posts.service.ts:277-283 | publishing without a publishedAt stamps the current time; no other patch field changes |
| Posts.Patched | src/posts/posts.service.ts:285-299 | each patched field replaces the stored one, empty references are ignored, and createdAt, orderNo and expiredAt are kept |
| Posts.MoveCategory | src/posts/posts.service.ts:308-318 | a real move takes one from the old category's counter and adds one to the new one's; otherwise the counters stay. No other field of any category changes |
| Posts.MovePlacement | src/posts/posts.service.ts:320-330 | a real move takes one from the old placement's counter and adds one to the new one's; otherwise the counters stay. No other field of any placement changes |
| Posts.Update | src/posts/posts.service.ts:261-337 | not-found exactly for an unknown id. Otherwise only that post changes, by the stamped patch; counters move exactly when the category or placement really changes, and no other field of a category or placement changes |
| Posts.UpdateRestampsPublished | src/posts/posts.service.ts:277-283 | re-publishing an already published post overwrites its publishedAt |
| Posts.Remove | src/posts/posts.service.ts:339-354 | not-found exactly for an unknown id; otherwise exactly that post is gone, its category's and placement's counters each drop by one, and no other field of a category or placement changes |
| Posts.IncrementViewCount | src/posts/posts.service.ts:356-369 | not-found exactly for an unknown id; otherwise only that post's view count rises by one |
| Posts.FindOne | src/posts/posts.service.ts:233-245 | finds the post exactly when the id is stored; otherwise not-found |
| Posts.FindBySlug | src/posts/posts.service.ts:247-259 | succeeds exactly when some post has the slug, and returns one with that slug |
| Posts.Referrers | src/posts/posts.service.ts:77-81 | the posts that point at a category or placement are exactly those whose reference equals it |
| Posts.CountInsert | src/posts/posts.service.ts:75-81 | adding a post raises the reference count of its own target by one and of no other |
| Posts.CountRemove | src/posts/posts.service.ts:346-353 | removing a post lowers the reference count of its own target by one and of no other |
| Posts.CountReplace | src/posts/posts.service.ts:294-330 | replacing a post moves one reference from its old target to its new one |
| Posts.CreateKeepsCounters | src/posts/posts.service.ts:75-81 | when every counter equals its number of referring posts, it still does after a create |
| Posts.UpdateKeepsCounters | src/posts/posts.service.ts:305-334 | every counter still equals its number of referring posts after an update |
| Posts.RemoveKeepsCounters | src/posts/posts.service.ts:346-353 | every counter still equals its number of referring posts after a remove |
| Posts.ViewCountKeepsCounters | src/posts/posts.service.ts:356-369 | counting a view keeps every counter correct |
| Posts.CategoryCreateKeepsCounters | src/categories/categories.service.ts:10-13 | creating a category keeps the counters correct exactly when no post already points at the new id |
| Posts.PlacementCreateKeepsCounters | src/placements/placements.service.ts:13-16 | creating a placement keeps the counters correct exactly when no post already points at the new id |
| Posts.PlacementChangesKeepCounters | src/placements/placements.service.ts:55-72 | updating or removing a placement keeps the remaining counters correct |
| PostQueries.ListCriteria | src/posts/posts.service.ts:87-110 | a status filter is used when given. Author, search and tag filters are used exactly when non-empty, each with the value the query gave |
| PostQueries.MatchesEachField | src/posts/posts.service.ts:92-110 | the filter is the conjunction of its status, author, search and tag parts; the empty filter matches every post |
| PostQueries.CeilDiv | src/posts/posts.service.ts:127 | totalPages is the least page count that covers every hit |
| PostQueries.PageOf | src/posts/posts.service.ts:112-124 | a page is the run of hits that starts after the (page-1)*limit skipped ones; it holds exactly min(limit, hits - skipped) of them, none past the end, and every hit in that range |
| PostQueries.Paged | src/posts/posts.service.ts:112-135 | a page holds only kept rows, at most `limit` of them. For a total preorder, it is exactly the page-th window of some sorted arrangement of all kept rows. The total counts all kept rows and totalPages is its ceiling over `limit` |
| PostQueries.WindowSorted | src/posts/posts.service.ts:115-124 | a window of a sorted list is itself sorted |
| PostQueries.PageOfPosition | src/posts/posts.service.ts:112-127 | every position of the result list falls on some page no greater than totalPages |
| PostQueries.PagedReachesEveryHit | src/posts/posts.service.ts:112-127 | every kept row appears on some page that totalPages allows |
| PostQueries.NewestFirst | src/posts/posts.service.ts:120 | the list order is newest createdAt first, a total preorder |
| PostQueries.LatestFirst | src/posts/posts.service.ts:144 | the published order is latest publishedAt first; posts without a date come last |
| PostQueries.FeaturedOrder | src/posts/posts.service.ts:202 | featured posts order by orderNo ascending, missing first, then by latest publishedAt |
| PostQueries.FindAll | src/posts/posts.service.ts:86-136 | the page-th window, newest first, of all posts matching every given filter. Page and limit default to 1 and 10; the total counts every match |
| PostQueries.FindByAuthor | src/posts/posts.service.ts:371-420 | the page-th window, newest first, of that author's posts that also match the query's status, search and tags. The total counts them all |
| PostQueries.FindByTag | src/posts/posts.service.ts:422-471 | the page-th window, newest first, of posts carrying that tag that also match the query's status, author and search. The total counts them all |
| PostQueries.AuthorCriteria | src/posts/posts.service.ts:375-395 | the author filter is always the given author; status, search and tags come from the query as in the list |
| PostQueries.TagCriteria | src/posts/posts.service.ts:426-446 | the tag filter is always that one tag; status, author and search come from the query as in the list |
| PostQueries.FindAllReachesEveryMatch | src/posts/posts.service.ts:86-136 | every matching post is on some page within totalPages |
| PostQueries.FindByAuthorReachesEveryMatch | src/posts/posts.service.ts:371-420 | every matching post of the author is on some page within totalPages |
| PostQueries.FindByTagReachesEveryMatch | src/posts/posts.service.ts:422-471 | every matching post with the tag is on some page within totalPages |
| PostQueries.FindPublished | src/posts/posts.service.ts:138-146 | exactly the published posts, each as often as in the store, latest publishedAt first |
| PostQueries.EmptyPage | src/posts/posts.service.ts:155-161 | the empty answer has no posts, total 0 and 0 pages, and echoes page and limit |
| PostQueries.FeaturedPage | src/posts/posts.service.ts:163-217 | the page-th window, in featured order, of the live posts (published and not expired) in the chosen category and placement. The total counts them all |
| PostQueries.FeaturedPaged | src/posts/posts.service.ts:196-206 | a page of kept rows in featured order (orderNo ascending, then latest publishedAt) is itself sorted and is a window of some sorted arrangement of all kept rows |
| PostQueries.FeaturedPageReachesEveryMatch | src/posts/posts.service.ts:163-217 | every live post in the chosen category and placement is on some page within totalPages |
| PostQueries.Resolved | src/posts/posts.service.ts:173-192 | an empty name filters nothing; a non-empty one filters by the id the lookup gives |
| PostQueries.LiveUntilExpiry | src/posts/posts.service.ts:163-171 | only published posts are live; a post without expiry is live at every time; a post is live until its expiry and never from then on |
| PostQueries.FindByFilters | src/posts/posts.service.ts:148-218 | an unknown category or placement name gives the empty page. Otherwise the page-th window, in featured order, of the live posts in the named category and placement, with a total over them all |
| PostQueries.FindByFiltersUnnamed | src/posts/posts.service.ts:164-171 | with no names given, the total counts every live post |
| ExceptionFilter.StatusCode | src/common/filters/global-exception.filter.ts:95-118 | the ten listed statuses get their fixed names, for instance 404 gives 'NOT_FOUND' and 422 'VALIDATION_ERROR'. Every other status, and only those, gives 'UNKNOWN_ERROR'. Each code is non-empty and upper-case |
| ExceptionFilter.ErrorCode | src/common/filters/global-exception.filter.ts:88-119 | a non-empty error type, upper-cased, wins whatever the status; otherwise the status's code. Either way the code has no lower-case letter |
| ExceptionFilter.ErrorCodeStable | src/common/filters/global-exception.filter.ts:88-119 | feeding a code back in as the error type returns the same code |
| ExceptionFilter.LevelOf | src/common/filters/global-exception.filter.ts:72-83 | error from 500, warning from 400 to 499, silent below |
| ExceptionFilter.Catch | src/common/filters/global-exception.filter.ts:25-86 | the reply never reports success and keeps the exception's status. Unexpected errors become 500 with a fixed message. Details are present exactly for validation lists and equal the message |
| ExceptionFilter.ObjectResponseMessage | src/common/filters/global-exception.filter.ts:39-43 | an object response's message is its own non-empty text or list, else the exception's message |
| ExceptionFilter.CodeDependsOnTypeOrStatus | src/common/filters/global-exception.filter.ts:88-119 | the same error type gives the same code at any status. Without one, object and string responses with the same status get the same code |
| ResponseInterceptor.SuccessMessage | src/common/interceptors/response.interceptor.ts:31-54 | the message for each method, and for POST the distinction between 201 and other statuses |
| ResponseInterceptor.Wrap | src/common/interceptors/response.interceptor.ts:26-62 | an already wrapped result passes unchanged; anything else is enveloped. The result is always wrapped |
| ResponseInterceptor.WrapIdempotent | src/common/interceptors/response.interceptor.ts:26-28 | wrapping twice is wrapping once, whatever the second request |
| ResponseInterceptor.WrapKeepsDataAndMessage | src/common/interceptors/response.interceptor.ts:57-62 | the envelope says success, carries the data unchanged, and its message depends only on the request |
| ResponseInterceptor.NonObjectsWrapped | src/common/interceptors/response.interceptor.ts:26-28 | arrays, scalars and null are never passed through |
| Permissions.CanEditPost | cms-admin/src/app/pages/posts/posts.ts:167-183 | admins and editors may edit any post, authors only their own (by id or by populated author), viewers and visitors none. The check throws exactly for an author asking about a post whose populated author is null |
| Permissions.AuthorIdOf | cms-admin/src/app/pages/posts/posts.ts:178 | the id of a bare or populated author; none for a null author, where reading `_id` throws |
| Permissions.CanDeletePost | cms-admin/src/app/pages/posts/posts.ts:185-190 | exactly admins and editors may delete |
| Permissions.CanCreatePost | cms-admin/src/app/pages/posts/posts.ts:192-197 | exactly admins, editors and authors may create |
| Permissions.PostPermissionsNest | cms-admin/src/app/pages/posts/posts.ts:167-197 | whoever may delete a post may edit it, and whoever may edit may create |
| Permissions.AuthorEditsOwnPosts | cms-admin/src/app/pages/posts/posts.ts:176-180 | an author may edit a post exactly when it is theirs, whichever shape the author reference has; a missing author makes the check throw |
| Permissions.CanManageTaxonomy | cms-admin/src/app/pages/categories/categories.ts:128-133 | exactly admins and editors may create and edit categories and placements |
| Permissions.CanDeleteTaxonomy | cms-admin/src/app/pages/categories/categories.ts:135-140 | only admins may delete categories and placements |
| Permissions.TaxonomyPermissionsNest | cms-admin/src/app/pages/placements/placements.ts:118-131 | delete rights imply edit rights, which imply the right to create posts |
| Permissions.IsAdmin | cms-admin/src/app/services/users.ts:145-160 | the role-change, delete and create guards hold exactly for a signed-in admin |
| Permissions.CanEditUser | cms-admin/src/app/services/users.ts:163-173 | admins may edit anyone; others only themselves; nobody signed in, nobody |
| Permissions.DeleteUsersImpliesEdit | cms-admin/src/app/services/users.ts:150-173 | whoever may delete users may edit every user |
| Permissions.UpdateUserRole | cms-admin/src/app/services/users.ts:85-93 | the request is sent exactly for an admin; anyone else gets the refusal thrown |
| Permissions.ResetUserPassword | cms-admin/src/app/services/users.ts:116-124 | the request is sent exactly for an admin; anyone else gets the refusal thrown |
| Permissions.CanDeleteUserRow | cms-admin/src/app/pages/users/users.ts:176-181 | never for one's own row; otherwise exactly for admins |
| Permissions.CanUpdateUserRoleRow | cms-admin/src/app/pages/users/users.ts:187-192 | never for one's own row; otherwise exactly for admins |
| Permissions.OnDeleteUser | cms-admin/src/app/pages/users/users.ts:119-136 | refuses one's own account with an alert, does nothing unconfirmed, and otherwise sends the delete |
| Permissions.OnChangeUserRole | cms-admin/src/app/pages/users/users.ts:143-164 | refuses one's own role with an alert, does nothing unconfirmed. It sends the change exactly when confirmed by an admin, because the service throws for anyone else |
| Permissions.SelfProtection | cms-admin/src/app/pages/users/users.ts:119-164 | no path deletes one's own account or changes one's own role, and a role change sent implies the row's button was allowed |
| Permissions.DeleteHandlerHasNoRoleCheck | cms-admin/src/app/pages/users/users.ts:119-136 | a confirmed viewer deleting another user does send the request, although the row hides the button |
| Permissions.ParseRole | cms-admin/src/app/services/users.ts:176-186 | reads back exactly the four role names |
| Permissions.RoleDisplayName | cms-admin/src/app/services/users.ts:176-186 | known roles show their label. A prototype key such as "constructor" yields the inherited member, and any other string is shown unchanged |
| Permissions.RoleLabelsDistinct | cms-admin/src/app/services/users.ts:176-186 | distinct roles get distinct labels, and no label is another role's raw name |
| Permissions.RoleColorOf | cms-admin/src/app/services/users.ts:188-197 | known roles get their colour. A prototype key yields the inherited member, and any other string the grey fallback |
| ObjectLookup.LookupOr | cms-admin/src/app/services/users.ts:184 | a non-empty own property wins. Without an own property, exactly a prototype key yields the inherited member; every other case yields the fallback |
| Permissions.FallbackIsViewerColor | cms-admin/src/app/services/users.ts:188-197 | the fallback colour is shown exactly for viewers and for strings that are neither a role nor a prototype key |
| Permissions.RoleOptions | cms-admin/src/app/services/users.ts:135-142 | four options, one per role, each with its label |
| PlacementsPage.FilterPlacements | cms-admin/src/app/pages/placements/placements.ts:73-87 | exactly the placements passing both filters, each as often as in the input, sorted by `sortOrder \|\| 0` |
| PlacementsPage.Narrow | cms-admin/src/app/pages/placements/placements.ts:75-84 | the sub-category step then the status step is one filter by both conditions, in input order |
| PlacementsPage.NoFilterIsPermutation | cms-admin/src/app/pages/placements/placements.ts:73-87 | with no sub-category and status 'all', the page shows every placement, reordered |
| PlacementsPage.StatusViewsPartition | cms-admin/src/app/pages/placements/placements.ts:79-84 | a placement shows in the 'active' view exactly when it does not show in the 'inactive' one; a missing isActive counts as active |
| PlacementsPage.ParseSubCategory | cms-admin/src/app/pages/placements/placements.ts:141-153 | recognises exactly the stored sub-category strings |
| PlacementsPage.SubCategoryDisplayName | cms-admin/src/app/pages/placements/placements.ts:141-153 | a stored sub-category shows its label. A prototype key yields the inherited member, and any other string is shown unchanged |
| PlacementsPage.DisplayNames | cms-admin/src/app/pages/placements/placements.ts:141-153 | every sub-category shows its label, and distinct sub-categories get distinct labels |
| PostForm.AddTag | cms-admin/src/app/pages/posts/post-form/post-form.ts:224-232 | appends the trimmed input and clears it exactly when the input is non-blank and new. Otherwise nothing changes. A non-blank input is always among the tags afterwards |
| PostForm.AddTagKeepsDistinct | cms-admin/src/app/pages/posts/post-form/post-form.ts:224-232 | tags stay free of duplicates |
| PostForm.AddTagTwice | cms-admin/src/app/pages/posts/post-form/post-form.ts:224-232 | pressing add twice is pressing it once |
| PostForm.SpliceStart | cms-admin/src/app/pages/posts/post-form/post-form.ts:234-238 | the position JavaScript's splice starts from: negative indexes count from the end and are clamped at 0, large ones at the length |
| PostForm.RemoveTag | cms-admin/src/app/pages/posts/post-form/post-form.ts:234-238 | removes the tag at the index (negative from the end). An index past the end removes nothing, and one below minus the length removes the first tag |
| PostForm.RemoveTagKeepsDistinct | cms-admin/src/app/pages/posts/post-form/post-form.ts:234-238 | removing keeps the tags free of duplicates |
| PostForm.RemoveUndoesAdd | cms-admin/src/app/pages/posts/post-form/post-form.ts:224-238 | removing the tag just added, by its index or by -1, restores the tags |
| PostForm.RefValue | cms-admin/src/app/pages/posts/post-form/post-form.ts:138-139 | a reference's id whether it is a plain id or a populated document; '' when it has none |
| PostForm.RefShapesAgree | cms-admin/src/app/pages/posts/post-form/post-form.ts:138-139 | a plain id and a populated document with that id fill in the same value |
| PostForm.PopulateForm | cms-admin/src/app/pages/posts/post-form/post-form.ts:137-153 | copies the post's fields, with a missing excerpt as '' and missing tags as [] |
| PostForm.MissingRefInvalid | cms-admin/src/app/pages/posts/post-form/post-form.ts:52-64 | a post whose category or placement yields no id, in any of its shapes (absent, a document without `_id`, an empty id), fills in a form that cannot be saved until one is chosen |
| PostForm.OnSubmit | cms-admin/src/app/pages/posts/post-form/post-form.ts:156-174 | an invalid form is refused with the fixed message. A valid one updates when editing a known post and creates otherwise, sending the form's values |
| PostForm.OnSlugChange | cms-admin/src/app/pages/posts/post-form/post-form.ts:216-222 | an empty slug stays empty; any other is cleaned by the services' generator, and the result passes the slug pattern unless empty |
| PostForm.OnSlugChangeIdempotent | cms-admin/src/app/pages/posts/post-form/post-form.ts:216-222 | cleaning a cleaned slug changes nothing |
| PostForm.CleanSlugSubmits | cms-admin/src/app/pages/posts/post-form/post-form.ts:216-222 | with the other fields valid, a non-empty cleaned slug never blocks submission |
| PostForm.StatusOptions | cms-admin/src/app/services/posts.ts:118-124 | three options, one per status, draft first |
| CategoryForm.Validate | cms-admin/src/app/pages/categories/category-form/category-form.ts:31-34 | which validators fail for each field: required, minLength 2, maxLength 100 or 500, the slug pattern. Empty values are judged only by required |
| CategoryForm.FieldError | cms-admin/src/app/pages/categories/category-form/category-form.ts:130-139 | a message exactly for a touched field with an error. Required comes first, then minlength with length 2, then maxlength with the field's bound (100 or 500), then the pattern message |
| CategoryForm.Decimal | cms-admin/src/app/pages/categories/category-form/category-form.ts:134-135 | the length bound the message interpolates, as decimal digits without a leading zero that read back as the number |
| CategoryForm.BoundsInWords | cms-admin/src/app/pages/categories/category-form/category-form.ts:31-34 | the bounds appear in messages as 2, 100 and 500 |
| CategoryForm.FieldErrorPriority | cms-admin/src/app/pages/categories/category-form/category-form.ts:130-139 | untouched fields show nothing; a touched empty name or slug says it is required |
| CategoryForm.OnNameChange | cms-admin/src/app/pages/categories/category-form/category-form.ts:37-43 | while creating, a non-empty name replaces the slug with its generated slug; otherwise the slug stays |
| CategoryForm.GeneratedSlugPasses | cms-admin/src/app/pages/categories/category-form/category-form.ts:37-61 | a generated slug never fails the slug pattern |
| Pagination.PaginationNumbers | cms-admin/src/app/pages/posts/posts.ts:207-233 | the loop builds the row: page 1, an ellipsis when needed, the window of up to two pages each side, an ellipsis when needed, the last page |
| Pagination.ButtonsFrame | cms-admin/src/app/pages/posts/posts.ts:207-233 | at most nine entries, starting at page 1 and ending at the last page |
| Pagination.ButtonsDots | cms-admin/src/app/pages/users/users.ts:226-252 | an ellipsis follows page 1 exactly when the window starts after page 3; one precedes the last page exactly when the window ends before the second-to-last page |
| Pagination.ButtonsIncreasing | cms-admin/src/app/pages/categories/categories.ts:161-187 | the page numbers shown strictly increase, and the inner ones lie in the window |
| Pagination.ButtonsShowWindow | cms-admin/src/app/pages/posts/posts.ts:211-215 | every page of the window is shown |
| Pagination.SinglePageRow | cms-admin/src/app/pages/posts/posts.ts:207-233 | with one page the row lists page 1 twice |
| Pagination.EmptyListRow | cms-admin/src/app/pages/posts/posts.ts:207-233 | with no pages the row is page 1 then page 0 |
| Pagination.OnPageChange | cms-admin/src/app/pages/users/users.ts:104-109 | moves to the page and reloads exactly when it is within 1..totalPages; otherwise nothing changes |
| Pagination.OnPageChangeStaysInRange | cms-admin/src/app/pages/categories/categories.ts:88-93 | the current page stays in range, and repeating the request changes nothing more |
| Pagination.MaxItem | cms-admin/src/app/pages/posts/posts.ts:235-237 | the last item number shown is the smaller of page times size and the total |
| Pagination.MaxItemOnPage | cms-admin/src/app/pages/posts/posts.ts:235-237 | on a page that exists, the last item shown falls on that page |
| Slugs.ServiceSlugIsSlug | cms-admin/src/app/services/posts.ts:108-115 | the services' generator yields only [a-z0-9] and single hyphens, never at either end |
| Slugs.ServiceSlugIdempotent | cms-admin/src/app/services/categories.ts:71-78 | generating from a generated slug changes nothing |
| Slugs.ServiceSlugFixesSlugs | cms-admin/src/app/services/placements.ts:40-47 | a string that is already a slug comes back unchanged |
| Slugs.ServiceSlugKeepsAlnum | cms-admin/src/app/services/posts.ts:108-115 | the letters and digits of the lower-cased input survive in order and nothing else but hyphens is added |
| Slugs.ServiceSlugEmpty | cms-admin/src/app/services/posts.ts:108-115 | the slug is empty exactly when the lower-cased input has no letter or digit |
| Slugs.ServiceSlugMatchesPostFormPattern | cms-admin/src/app/pages/posts/post-form/post-form.ts:54 | a generated slug passes the post form's pattern `^[a-z0-9-]+$` unless empty |
| Slugs.ServiceSlugMatchesCategoryFormPattern | cms-admin/src/app/pages/categories/category-form/category-form.ts:34 | a non-empty generated slug passes the category form's pattern |
| Slugs.CategoryFormPatternIsSlug | cms-admin/src/app/pages/categories/category-form/category-form.ts:34 | the category form's pattern accepts exactly the non-empty slugs |
| Slugs.FormSlugIsSlug | cms-admin/src/app/pages/categories/category-form/category-form.ts:54-61 | the category form's generator yields only [a-z0-9] and single hyphens, never at either end |
| Slugs.FormSlugIdempotent | cms-admin/src/app/pages/categories/category-form/category-form.ts:54-61 | generating from a generated slug changes nothing |
| Slugs.FormSlugFixesSlugs | cms-admin/src/app/pages/categories/category-form/category-form.ts:54-61 | a string that is already a slug comes back unchanged |
| Slugs.FormSlugKeepsAlnum | cms-admin/src/app/pages/categories/category-form/category-form.ts:54-61 | the letters and digits of the lower-cased input survive in order and nothing else but hyphens is added |
| Slugs.FormSlugMatchesCategoryFormPattern | cms-admin/src/app/pages/categories/category-form/category-form.ts:54-61 | a non-empty slug from the form's generator passes the form's own pattern |
| Slugs.FormSlugJoinsSlugs | cms-admin/src/app/pages/categories/category-form/category-form.ts:58-60 | two slugs joined by any run of whitespace, `_` and `-` come out joined by exactly one `-` |
| Slugs.ServiceSlugDropsSeparators | cms-admin/src/app/services/posts.ts:108-115 | two slugs joined by a run of `_` and non-space whitespace come out run together, with no hyphen |
| Slugs.FormSlugUnderscore | cms-admin/src/app/pages/categories/category-form/category-form.ts:58-60 | for letters or digits x and y, the form's generator turns x_y into x-y (a_b gives a-b) |
| Slugs.ServiceSlugUnderscore | cms-admin/src/app/services/posts.ts:108-115 | the services' generator turns x_y into xy (a_b gives ab), so the two generators disagree on it |

## Left out

- MongoDB itself is not modelled: ObjectId casting and its cast errors, `populate`, and the unique index on slugs. An update that makes two slugs equal is accepted here.
- Every operation runs atomically. The source runs the counter updates with `Promise.all` after the write, with no transaction, so a crash in between leaves counters off.
- Posts.Create, Categories.Create, Placements.Create: the store's fresh id is an argument, and the model requires it to be unused.
- Wall-clock time, the request timestamp and `Date` values are parameters (`now`, `timestamp`) and are plain integers.
- Text is ASCII. The model has no Unicode lower-casing and counts characters, not UTF-16 units, for minLength and maxLength.
- PostQueries.MatchesSearch: the source builds a case-insensitive regular expression from the search text. The model uses a case-insensitive substring test, so regular-expression metacharacters are not interpreted.
- PostQueries: page and limit are positive integers. The controllers never pass other values; the service's behaviour for 0 or negative values (MongoDB's treatment of skip and limit) is not modelled.
- PostQueries.FindByFilters: the service calls `findByName` on the category and placement services, which do not define it. The name lookup is a parameter of the model.
- PostQueries: ties in a sort keep input order. MongoDB leaves the order of ties unspecified.
- Posts.Update: for a patch value `Some("")` for category or placement, the model keeps the stored reference. The source skips the ObjectId conversion and the counter move for it, but its spread still writes `""` into the update, and how the store casts that is not modelled. The commented-out ownership check is not modelled either.
- Posts: the schema file omits category, placement, orderNo and expiredAt, and the create DTO omits category and placement. The model follows the service code, which reads and writes all of them.
- ExceptionFilter.Catch: the log message text, the request path in it, and the extra error log for non-HTTP errors are left out; only the level is modelled.
- ResponseInterceptor: the difference between `undefined` and `null` data, and the observable plumbing, are left out.
- PlacementsPage.FilterPlacements: the page's loader never calls it. It is modelled standalone as written.
- Pagination: the three copies of the page-number builder (posts, categories, users) are the same and are modelled once. Whether the page template hides the row for one or zero pages is not part of this model. SinglePageRow and EmptyListRow record what the builder returns.
- Controllers, guards, JWT authentication, the backend users and auth services, DTO validation pipes, Angular routing, HTTP calls, alerts and confirmation dialogs are not part of this model. A confirmation is a boolean parameter.
