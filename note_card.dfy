/** The client's card for one note: which controls it shows the viewer,
    which comment drafts it sends, and how it updates its local copy of
    the note after a comment is deleted or a rating is given. */
module NoteCard {
  import opened Common
  import opened Strings
  import opened UserSchema
  import opened NoteSchema
  import opened CommentController

  /** The signed-in user as the client keeps it. */
  datatype Viewer = Viewer(id: Id, role: Role)

  /** `canDelete`: the note's delete control is for admins and teachers. */
  predicate CanDelete(viewer: Option<Viewer>)
  {
    viewer.Some? && (viewer.value.role == Admin || viewer.value.role == Teacher)
  }

  /** The identifier `user?._id` reads, absent without a viewer. */
  function ViewerId(viewer: Option<Viewer>): (r: Option<Id>)
    ensures r.Some? <==> viewer.Some?
    ensures r.Some? ==> r.value == viewer.value.id
  {
    match viewer
    case None => None
    case Some(v) => Some(v.id)
  }

  /** The test guarding a comment's Delete button: the viewer's id equals
      the author's id (`comment.user` is absent when the author's account
      is gone), or the viewer is an admin. Two absent ids are equal. */
  predicate ShowsCommentDelete(viewer: Option<Viewer>, author: Option<Id>)
  {
    ViewerId(viewer) == author || (viewer.Some? && viewer.value.role == Admin)
  }

  /** For a signed-in viewer and a comment whose author still exists, the
      button shows exactly when the server would delete the comment for
      that viewer. */
  lemma CommentDeleteMatchesServer(viewer: Viewer, actor: User, c: Comment)
    requires actor.id == viewer.id && actor.role == viewer.role
    ensures ShowsCommentDelete(Some(viewer), Some(c.user)) <==> MayDeleteComment(actor, c)
  {
  }

  /** Without a viewer the button still shows on a comment whose author is
      gone, since both identifiers are absent. */
  lemma AbsentIdsShowDelete()
    ensures ShowsCommentDelete(None, None)
    ensures forall a: Id :: !ShowsCommentDelete(None, Some(a))
  {
  }

  /** `newComment.trim()`: a draft the card sends. */
  predicate DraftSendable(draft: string)
  {
    Trim(draft) != ""
  }

  /** The card sends exactly the drafts the server accepts as comment
      text: a blank draft is never sent, and no sent draft is refused for
      being blank. */
  lemma DraftMatchesServer(draft: string)
    ensures DraftSendable(draft) <==> CommentTextOk(Some(draft))
    ensures DraftSendable(draft) <==> !IsBlank(draft)
  {
  }

  /** The local note after the server deleted comment `commentId`: the
      comments with that id are gone, the others stay in order, and
      nothing else changes. */
  function AfterCommentDeleted(local: Note, commentId: Id): (r: Note)
    ensures forall c :: c in r.comments <==> c in local.comments && c.id != commentId
    ensures IsSubseq(r.comments, local.comments)
    ensures r.(comments := local.comments) == local
  {
    FilterIsSubseq(local.comments, (c: Comment) => c.id != commentId);
    local.(comments := Filter(local.comments, (c: Comment) => c.id != commentId))
  }

  /** Deleting a comment that the local note does not hold changes
      nothing. */
  lemma DeleteAbsentComment(local: Note, commentId: Id)
    requires forall i :: 0 <= i < |local.comments| ==> local.comments[i].id != commentId
    ensures AfterCommentDeleted(local, commentId) == local
  {
    FilterAll(local.comments, (c: Comment) => c.id != commentId);
  }

  /** The local note after a rating: the average the server sent replaces
      the local one, and nothing else changes. */
  function AfterRating(local: Note, average: real): (r: Note)
    ensures r.averageRating == average
    ensures r.(averageRating := local.averageRating) == local
  {
    local.(averageRating := average)
  }

  /** Taking over the average the server computes over the same ratings
      gives the note the server stores. */
  lemma AfterRatingMatchesServer(local: Note)
    ensures AfterRating(local, CalculateAverageRating(local).averageRating) == CalculateAverageRating(local)
  {
  }
}
