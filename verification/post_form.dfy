/** The admin client's post form: the tag editor, the id extraction when a
    loaded post fills the form, the submit branching, the slug clean-up on
    edit, and the status choices the client posts service offers. */
module PostForm {
  import opened Wrappers
  import opened Text
  import Slugs
  import Posts

  // ---------------------------------------------------------------------
  // Tag editor

  /** The form's tag list and the text box a new tag is typed into. */
  datatype TagEditor = TagEditor(tags: seq<string>, input: string)

  predicate Distinct(tags: seq<string>) {
    forall i, j :: 0 <= i < j < |tags| ==> tags[i] != tags[j]
  }

  /** `addTag`: a trimmed, non-empty tag not yet in the list goes to the end
      and the text box is cleared; anything else changes nothing. */
  function AddTag(e: TagEditor): (r: TagEditor)
    ensures e.tags <= r.tags && |r.tags| <= |e.tags| + 1
    ensures |r.tags| == |e.tags| + 1 <==> Trim(e.input) != [] && Trim(e.input) !in e.tags
    ensures |r.tags| == |e.tags| ==> r == e
    ensures |r.tags| == |e.tags| + 1 ==> r.tags[|e.tags|] == Trim(e.input) && r.input == []
    ensures Trim(e.input) != [] ==> Trim(e.input) in r.tags
  {
    var tag := Trim(e.input);
    if tag != [] && tag !in e.tags then TagEditor(e.tags + [tag], []) else e
  }

  /** No tag is listed twice, whatever is typed. */
  lemma AddTagKeepsDistinct(e: TagEditor)
    requires Distinct(e.tags)
    ensures Distinct(AddTag(e).tags)
  {
  }

  /** Pressing "add" again right away adds nothing more. */
  lemma AddTagTwice(e: TagEditor)
    ensures AddTag(AddTag(e)) == AddTag(e)
  {
  }

  /** Where `Array.prototype.splice(index, 1)` starts: a negative index
      counts from the end (clamped at 0), a large one is clamped to the
      length. */
  function SpliceStart(len: nat, index: int): (r: nat)
    ensures r <= len
    ensures 0 <= index <= len ==> r == index
    ensures index > len ==> r == len
    ensures index < 0 && len + index >= 0 ==> r == len + index
    ensures len + index < 0 ==> r == 0
  {
    if index < 0 then (if len + index < 0 then 0 else len + index)
    else if index > len then len
    else index
  }

  /** `removeTag(index)`: the list with the splice position removed. */
  function RemoveTag(tags: seq<string>, index: int): (r: seq<string>)
    ensures 0 <= index < |tags| ==> r == tags[..index] + tags[index + 1..]
    ensures index >= |tags| ==> r == tags
    ensures -|tags| <= index < 0 ==> r == tags[..|tags| + index] + tags[|tags| + index + 1..]
    ensures index < -|tags| && |tags| > 0 ==> r == tags[1..]
    ensures |r| == |tags| || |r| == |tags| - 1
    ensures multiset(r) <= multiset(tags)
  {
    var k := SpliceStart(|tags|, index);
    if k < |tags| then
      assert tags == tags[..k] + [tags[k]] + tags[k + 1..];
      tags[..k] + tags[k + 1..]
    else tags
  }

  /** Removing a tag never introduces a duplicate. */
  lemma RemoveTagKeepsDistinct(tags: seq<string>, index: int)
    requires Distinct(tags)
    ensures Distinct(RemoveTag(tags, index))
  {
    var k := SpliceStart(|tags|, index);
    if k < |tags| {
      DropKeepsDistinct(tags, k);
    }
  }

  lemma DropKeepsDistinct(tags: seq<string>, k: nat)
    requires Distinct(tags) && k < |tags|
    ensures Distinct(tags[..k] + tags[k + 1..])
  {
    var r := tags[..k] + tags[k + 1..];
    forall i, j | 0 <= i < j < |r| ensures r[i] != r[j] {
      var i' := if i < k then i else i + 1;
      var j' := if j < k then j else j + 1;
      assert r[i] == tags[i'] && r[j] == tags[j'];
    }
  }

  /** Removing the tag just added, by its position or as the last one,
      restores the list. */
  lemma RemoveUndoesAdd(e: TagEditor)
    requires Trim(e.input) != [] && Trim(e.input) !in e.tags
    ensures RemoveTag(AddTag(e).tags, |e.tags|) == e.tags
    ensures RemoveTag(AddTag(e).tags, -1) == e.tags
  {
    var t := AddTag(e).tags;
    assert t[..|e.tags|] == e.tags;
  }

  // ---------------------------------------------------------------------
  // Filling the form from a loaded post

  /** A post's category or placement as the client receives it: a bare id,
      a populated document (whose `_id` may be missing), or nothing. */
  datatype Ref = RefId(id: string) | RefDoc(docId: Option<string>) | RefNone

  /** The id `populateForm` puts in the form, '' when there is none. */
  function RefValue(r: Ref): (v: string)
    ensures r.RefId? ==> v == r.id
    ensures r.RefDoc? && r.docId.Some? ==> v == r.docId.value
    ensures r.RefNone? || r == RefDoc(None) ==> v == []
  {
    match r
    case RefId(id) => id
    case RefDoc(Some(id)) => id
    case RefDoc(None) => []
    case RefNone => []
  }

  /** Both shapes of the same reference fill in the same id. */
  lemma RefShapesAgree(id: string)
    ensures RefValue(RefId(id)) == RefValue(RefDoc(Some(id))) == id
  {
  }

  /** A post as the client receives it. */
  datatype ClientPost = ClientPost(
    title: string,
    slug: string,
    excerpt: Option<string>,
    content: string,
    status: Posts.PostStatus,
    category: Ref,
    placement: Ref,
    tags: Option<seq<string>>)

  /** The fields of the post form that take part in submission. */
  datatype FormValues = FormValues(
    title: string,
    slug: string,
    excerpt: string,
    content: string,
    status: Posts.PostStatus,
    category: string,
    placement: string,
    tags: seq<string>)

  /** `populateForm`: missing optional fields become '' or []. */
  function PopulateForm(p: ClientPost): (f: FormValues)
    ensures f.category == RefValue(p.category) && f.placement == RefValue(p.placement)
    ensures f.title == p.title && f.slug == p.slug && f.content == p.content && f.status == p.status
    ensures f.excerpt == p.excerpt.GetOr([])
    ensures f.tags == p.tags.GetOr([])
  {
    FormValues(p.title, p.slug, p.excerpt.GetOr([]), p.content, p.status,
               RefValue(p.category), RefValue(p.placement), p.tags.GetOr([]))
  }

  /** The form's validators: title required with at least 3 characters, slug
      required and /^[a-z0-9-]+$/, content required with at least 10
      characters, category and placement required. */
  predicate Valid(f: FormValues) {
    && |f.title| >= 3
    && Slugs.MatchesPostFormPattern(f.slug)
    && |f.content| >= 10
    && f.category != []
    && f.placement != []
  }

  /** A post whose category or placement reference yields no id (absent, a
      populated document without `_id`, or an empty id, in either field)
      fills in a form that does not validate. */
  lemma MissingRefInvalid(p: ClientPost)
    requires RefValue(p.category) == [] || RefValue(p.placement) == []
    ensures !Valid(PopulateForm(p))
  {
  }

  // ---------------------------------------------------------------------
  // Submitting

  const InvalidFormMessage: string := "Please fill in all required fields correctly."

  /** What pressing "save" ends in. */
  datatype Submission =
    | Refused(message: string)
    | CreateCall(values: FormValues)
    | UpdateCall(id: string, values: FormValues)

  /** `onSubmit`: an invalid form is refused with a message and nothing is
      sent; otherwise the form updates the post when editing one with a
      known id, and creates a post in every other case. */
  function OnSubmit(f: FormValues, editing: bool, postId: string): (r: Submission)
    ensures r.Refused? <==> !Valid(f)
    ensures r.Refused? ==> r.message == InvalidFormMessage
    ensures r.UpdateCall? <==> Valid(f) && editing && postId != []
    ensures r.CreateCall? <==> Valid(f) && !(editing && postId != [])
    ensures r.UpdateCall? ==> r.id == postId && r.values == f
    ensures r.CreateCall? ==> r.values == f
  {
    if !Valid(f) then Refused(InvalidFormMessage)
    else if editing && postId != [] then UpdateCall(postId, f)
    else CreateCall(f)
  }

  // ---------------------------------------------------------------------
  // Slug clean-up

  /** `onSlugChange`: a non-empty slug is replaced by its `generateSlug`
      form; an empty one is left alone. The result is empty or passes the
      form's slug pattern. */
  function OnSlugChange(slug: string): (r: string)
    ensures slug == [] ==> r == []
    ensures slug != [] ==> r == Slugs.ServiceSlug(slug)
    ensures r == [] || Slugs.MatchesPostFormPattern(r)
  {
    if slug == [] then []
    else
      Slugs.ServiceSlugIsSlug(slug);
      Slugs.ServiceSlug(slug)
  }

  /** A second clean-up changes nothing. */
  lemma {:induction false} OnSlugChangeIdempotent(slug: string)
    ensures OnSlugChange(OnSlugChange(slug)) == OnSlugChange(slug)
  {
    if slug != [] {
      Slugs.ServiceSlugIdempotent(slug);
    }
  }

  /** A form whose other fields pass and whose slug was cleaned up to
      something non-empty is submitted. */
  lemma CleanSlugSubmits(f: FormValues, editing: bool, postId: string)
    requires |f.title| >= 3 && |f.content| >= 10 && f.category != [] && f.placement != []
    requires OnSlugChange(f.slug) != []
    ensures !OnSubmit(f.(slug := OnSlugChange(f.slug)), editing, postId).Refused?
  {
  }

  // ---------------------------------------------------------------------
  // Status choices

  /** `getStatusOptions`: each status once, with its label. */
  function StatusOptions(): (r: seq<(Posts.PostStatus, string)>)
    ensures |r| == 3
    ensures (set i | 0 <= i < |r| :: r[i].0) == {Posts.Draft, Posts.Published, Posts.Archived}
    ensures forall i, j :: 0 <= i < j < |r| ==> r[i].0 != r[j].0
    ensures r[0].0 == Posts.Draft
  {
    var r := [(Posts.Draft, "Draft"), (Posts.Published, "Published"), (Posts.Archived, "Archived")];
    assert (set i | 0 <= i < |r| :: r[i].0) == {Posts.Draft, Posts.Published, Posts.Archived} by {
      assert r[0].0 == Posts.Draft && r[1].0 == Posts.Published && r[2].0 == Posts.Archived;
    }
    r
  }
}
