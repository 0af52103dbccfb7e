/** The admin client's authorisation rules: which buttons the posts,
    categories, placements and users pages offer to the signed-in user, the
    users service's admin-only guards, the self-protection rules of the users
    page, and the role labels and colours. The backend itself has no
    ownership check, so these rules are the only ones modelled. */
module Permissions {
  import opened Wrappers
  import opened ObjectLookup

  datatype Role = Admin | Editor | Author | Viewer

  /** The signed-in user as the client keeps it. */
  datatype User = User(id: string, role: Role)

  /** The current user (absent when nobody is signed in) has one of `roles`. */
  predicate HasRole(cur: Option<User>, roles: set<Role>) {
    cur.Some? && cur.value.role in roles
  }

  // ---------------------------------------------------------------------
  // Posts page

  /** A post's author as the list delivers it: a bare id, the populated
      user document, or nothing when the populated user no longer exists
      (`populate` then leaves `null`). */
  datatype AuthorRef = AuthorId(id: string) | AuthorDoc(docId: string) | AuthorMissing

  /** The id `typeof author === 'string' ? author : author._id` reads; none
      when the author is `null`, where reading `_id` throws. */
  function AuthorIdOf(a: AuthorRef): (r: Option<string>)
    ensures r.None? <==> a.AuthorMissing?
    ensures a.AuthorId? ==> r == Some(a.id)
    ensures a.AuthorDoc? ==> r == Some(a.docId)
  {
    match a
    case AuthorId(id) => Some(id)
    case AuthorDoc(id) => Some(id)
    case AuthorMissing => None
  }

  /** `canEditPost`: the verdict, or none when the check throws a
      `TypeError`, which happens exactly when an author asks about a post
      whose populated author is `null`. */
  function CanEditPost(cur: Option<User>, author: AuthorRef): (r: Option<bool>)
    ensures r.None? <==> HasRole(cur, {Author}) && author.AuthorMissing?
    ensures cur.None? ==> r == Some(false)
    ensures HasRole(cur, {Admin, Editor}) ==> r == Some(true)
    ensures HasRole(cur, {Author}) && !author.AuthorMissing? ==> r == Some(AuthorIdOf(author).value == cur.value.id)
    ensures HasRole(cur, {Viewer}) ==> r == Some(false)
  {
    match cur
    case None => Some(false)
    case Some(u) =>
      match u.role
      case Admin => Some(true)
      case Editor => Some(true)
      case Author =>
        (match AuthorIdOf(author)
         case Some(id) => Some(id == u.id)
         case None => None)
      case Viewer => Some(false)
  }

  /** `canDeletePost`: the post plays no part. */
  function CanDeletePost(cur: Option<User>, author: AuthorRef): (r: bool)
    ensures r <==> HasRole(cur, {Admin, Editor})
  {
    cur.Some? && (cur.value.role == Admin || cur.value.role == Editor)
  }

  /** `canCreatePost`. */
  function CanCreatePost(cur: Option<User>): (r: bool)
    ensures r <==> HasRole(cur, {Admin, Editor, Author})
  {
    cur.Some? && cur.value.role != Viewer
  }

  /** Whoever may delete a post may edit it, and whoever may edit one may
      create one. */
  lemma PostPermissionsNest(cur: Option<User>, author: AuthorRef)
    ensures CanDeletePost(cur, author) ==> CanEditPost(cur, author) == Some(true)
    ensures CanEditPost(cur, author) == Some(true) ==> CanCreatePost(cur)
  {
  }

  /** An author may edit exactly the posts whose author id is theirs, in
      either form the list delivers it; a post whose author is gone makes
      the check throw. */
  lemma AuthorEditsOwnPosts(u: User, author: AuthorRef)
    requires u.role == Author
    ensures CanEditPost(Some(u), author) == Some(true) <==> AuthorIdOf(author) == Some(u.id)
    ensures CanEditPost(Some(u), AuthorId(u.id)) == Some(true) && CanEditPost(Some(u), AuthorDoc(u.id)) == Some(true)
    ensures CanEditPost(Some(u), AuthorMissing).None?
  {
  }

  // ---------------------------------------------------------------------
  // Categories and placements pages (the two pages use the same rules)

  /** `canCreateCategory`, `canEditCategory`, `canCreatePlacement` and
      `canEditPlacement`. */
  function CanManageTaxonomy(cur: Option<User>): (r: bool)
    ensures r <==> HasRole(cur, {Admin, Editor})
    ensures cur.None? ==> !r
  {
    cur.Some? && (cur.value.role == Admin || cur.value.role == Editor)
  }

  /** `canDeleteCategory` and `canDeletePlacement`. */
  function CanDeleteTaxonomy(cur: Option<User>): (r: bool)
    ensures r <==> HasRole(cur, {Admin})
    ensures cur.None? ==> !r
  {
    cur.Some? && cur.value.role == Admin
  }

  lemma TaxonomyPermissionsNest(cur: Option<User>)
    ensures CanDeleteTaxonomy(cur) ==> CanManageTaxonomy(cur)
    ensures CanManageTaxonomy(cur) ==> CanCreatePost(cur)
  {
  }

  // ---------------------------------------------------------------------
  // Users service

  /** `canUpdateUserRole`, `canDeleteUser` and `canCreateUser` of the users
      service: `currentUser?.role === ADMIN`. */
  function IsAdmin(cur: Option<User>): (r: bool)
    ensures r <==> cur.Some? && cur.value.role == Admin
  {
    match cur
    case Some(u) => u.role == Admin
    case None => false
  }

  /** `canEditUser`: an admin edits anyone, everyone else only themselves. */
  function CanEditUser(cur: Option<User>, userId: string): (r: bool)
    ensures cur.None? ==> !r
    ensures IsAdmin(cur) ==> r
    ensures !IsAdmin(cur) ==> (r <==> cur.Some? && cur.value.id == userId)
  {
    IsAdmin(cur) || (cur.Some? && cur.value.id == userId)
  }

  /** Whoever may delete users may edit every user. */
  lemma DeleteUsersImpliesEdit(cur: Option<User>, userId: string)
    ensures IsAdmin(cur) ==> CanEditUser(cur, userId)
  {
  }

  /** A request the client sends to the users API. */
  datatype UserRequest =
    | DeleteUser(id: string)
    | UpdateRole(id: string, role: Role)
    | ResetPassword(id: string, password: string)

  /** What a user action ends in. */
  datatype Outcome =
    | Alerted(message: string)
    | Thrown(message: string)
    | Cancelled
    | Sent(request: UserRequest)

  const RoleUpdateRefused: string := "Only administrators can update user roles"
  const PasswordResetRefused: string := "Only administrators can reset user passwords"

  /** `updateUserRole`: throws before any request unless the caller is admin. */
  function UpdateUserRole(cur: Option<User>, id: string, role: Role): (r: Outcome)
    ensures r.Sent? <==> IsAdmin(cur)
    ensures !IsAdmin(cur) ==> r == Thrown(RoleUpdateRefused)
    ensures r.Sent? ==> r.request == UpdateRole(id, role)
  {
    if !IsAdmin(cur) then Thrown(RoleUpdateRefused) else Sent(UpdateRole(id, role))
  }

  /** `resetPassword`: guarded by the same admin check. */
  function ResetUserPassword(cur: Option<User>, id: string, password: string): (r: Outcome)
    ensures r.Sent? <==> IsAdmin(cur)
    ensures !IsAdmin(cur) ==> r == Thrown(PasswordResetRefused)
    ensures r.Sent? ==> r.request == ResetPassword(id, password)
  {
    if !IsAdmin(cur) then Thrown(PasswordResetRefused) else Sent(ResetPassword(id, password))
  }

  // ---------------------------------------------------------------------
  // Users page

  /** `user._id === this.currentUser?._id`. */
  predicate IsSelf(cur: Option<User>, userId: string) {
    cur.Some? && cur.value.id == userId
  }

  /** The users page's `canDeleteUser(user)`. */
  function CanDeleteUserRow(cur: Option<User>, userId: string): (r: bool)
    ensures IsSelf(cur, userId) ==> !r
    ensures !IsSelf(cur, userId) ==> (r <==> IsAdmin(cur))
  {
    !IsSelf(cur, userId) && IsAdmin(cur)
  }

  /** The users page's `canUpdateUserRole(user)`. */
  function CanUpdateUserRoleRow(cur: Option<User>, userId: string): (r: bool)
    ensures IsSelf(cur, userId) ==> !r
    ensures !IsSelf(cur, userId) ==> (r <==> IsAdmin(cur))
  {
    !IsSelf(cur, userId) && IsAdmin(cur)
  }

  const SelfDeleteRefused: string := "You cannot delete your own account."
  const SelfRoleChangeRefused: string := "You cannot change your own role."

  /** `onDeleteUser`: refuses one's own account, then asks for confirmation,
      then sends the delete. The page checks no role here. */
  function OnDeleteUser(cur: Option<User>, userId: string, confirmed: bool): (r: Outcome)
    ensures IsSelf(cur, userId) ==> r == Alerted(SelfDeleteRefused)
    ensures !IsSelf(cur, userId) && !confirmed ==> r == Cancelled
    ensures r.Sent? <==> !IsSelf(cur, userId) && confirmed
    ensures r.Sent? ==> r.request == DeleteUser(userId)
  {
    if IsSelf(cur, userId) then Alerted(SelfDeleteRefused)
    else if !confirmed then Cancelled
    else Sent(DeleteUser(userId))
  }

  /** `onChangeUserRole`: refuses one's own account, asks for confirmation,
      then goes through the service's admin guard. */
  function OnChangeUserRole(cur: Option<User>, userId: string, role: Role, confirmed: bool): (r: Outcome)
    ensures IsSelf(cur, userId) ==> r == Alerted(SelfRoleChangeRefused)
    ensures !IsSelf(cur, userId) && !confirmed ==> r == Cancelled
    ensures r.Sent? <==> !IsSelf(cur, userId) && confirmed && IsAdmin(cur)
    ensures r.Sent? ==> r.request == UpdateRole(userId, role)
  {
    if IsSelf(cur, userId) then Alerted(SelfRoleChangeRefused)
    else if !confirmed then Cancelled
    else UpdateUserRole(cur, userId, role)
  }

  /** Nobody's own account is deleted, or has its role changed, from the
      users page; and a role change only ever leaves the page when the row
      offered it. */
  lemma SelfProtection(cur: Option<User>, userId: string, role: Role, confirmed: bool)
    ensures IsSelf(cur, userId) ==> !OnDeleteUser(cur, userId, confirmed).Sent?
    ensures IsSelf(cur, userId) ==> !OnChangeUserRole(cur, userId, role, confirmed).Sent?
    ensures OnChangeUserRole(cur, userId, role, confirmed).Sent? ==> CanUpdateUserRoleRow(cur, userId)
  {
  }

  /** The delete handler does not itself require admin: a confirmed delete of
      another account by a viewer is sent, and only the row's button (hidden
      for non-admins) stands in the way. */
  lemma DeleteHandlerHasNoRoleCheck(viewer: User, userId: string)
    requires viewer.role == Viewer && viewer.id != userId
    ensures OnDeleteUser(Some(viewer), userId, true) == Sent(DeleteUser(userId))
    ensures !CanDeleteUserRow(Some(viewer), userId)
  {
  }

  // ---------------------------------------------------------------------
  // Role labels, colours and options

  function RoleName(r: Role): (s: string)
    ensures |s| > 0
  {
    match r
    case Admin => "admin"
    case Editor => "editor"
    case Author => "author"
    case Viewer => "viewer"
  }

  /** The role a stored string names, if any. */
  function ParseRole(s: string): (r: Option<Role>)
    ensures r.Some? ==> RoleName(r.value) == s
    ensures forall role :: RoleName(role) == s ==> r == Some(role)
  {
    if s == "admin" then Some(Admin)
    else if s == "editor" then Some(Editor)
    else if s == "author" then Some(Author)
    else if s == "viewer" then Some(Viewer)
    else None
  }

  function RoleLabel(r: Role): string {
    match r
    case Admin => "Administrator"
    case Editor => "Editor"
    case Author => "Author"
    case Viewer => "Viewer"
  }

  /** `getRoleDisplayName`: the label of a role; the inherited member for a
      prototype key; the string itself for anything else. */
  function RoleDisplayName(s: string): (r: Lookup)
    ensures ParseRole(s).Some? ==> r == Found(RoleLabel(ParseRole(s).value))
    ensures ParseRole(s).None? && s in PrototypeKeys ==> r == Inherited(s)
    ensures ParseRole(s).None? && s !in PrototypeKeys ==> r == Found(s)
  {
    match ParseRole(s)
    case Some(role) => LookupOr(Some(RoleLabel(role)), s, s)
    case None => LookupOr(None, s, s)
  }

  /** Each role has its own label, and no label is a role's stored name. */
  lemma RoleLabelsDistinct(a: Role, b: Role)
    ensures RoleDisplayName(RoleName(a)) == RoleDisplayName(RoleName(b)) <==> a == b
    ensures RoleDisplayName(RoleName(a)) != Found(RoleName(b))
  {
    assert RoleLabel(a)[0] != RoleName(b)[0];
  }

  const FallbackColor: string := "#95a5a6"

  function RoleColor(r: Role): string {
    match r
    case Admin => "#e74c3c"
    case Editor => "#3498db"
    case Author => "#2ecc71"
    case Viewer => "#95a5a6"
  }

  /** `getRoleColor`: a role's colour; the inherited member for a
      prototype key; the fallback for anything else. */
  function RoleColorOf(s: string): (r: Lookup)
    ensures ParseRole(s).Some? ==> r == Found(RoleColor(ParseRole(s).value))
    ensures ParseRole(s).None? && s in PrototypeKeys ==> r == Inherited(s)
    ensures ParseRole(s).None? && s !in PrototypeKeys ==> r == Found(FallbackColor)
  {
    match ParseRole(s)
    case Some(role) => LookupOr(Some(RoleColor(role)), s, FallbackColor)
    case None => LookupOr(None, s, FallbackColor)
  }

  /** The fallback colour is the viewer's, and is shown exactly for viewers
      and for strings that are neither a role nor a prototype key. */
  lemma FallbackIsViewerColor(s: string)
    ensures RoleColorOf(s) == Found(FallbackColor) <==>
              ParseRole(s) == Some(Viewer) || (ParseRole(s).None? && s !in PrototypeKeys)
  {
  }

  /** `getRoleOptions`: viewer, author, editor, administrator. */
  function RoleOptions(): (r: seq<(Role, string)>)
    ensures |r| == 4
    ensures (set i | 0 <= i < |r| :: r[i].0) == {Admin, Editor, Author, Viewer}
    ensures forall i, j :: 0 <= i < j < |r| ==> r[i].0 != r[j].0
    ensures forall i :: 0 <= i < |r| ==> r[i].1 == RoleLabel(r[i].0)
  {
    var r := [(Viewer, "Viewer"), (Author, "Author"), (Editor, "Editor"), (Admin, "Administrator")];
    assert (set i | 0 <= i < |r| :: r[i].0) == {Admin, Editor, Author, Viewer} by {
      assert r[0].0 == Viewer && r[1].0 == Author && r[2].0 == Editor && r[3].0 == Admin;
    }
    r
  }
}
