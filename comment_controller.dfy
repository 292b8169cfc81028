/** Comments and ratings on a note: adding a comment, deleting one (its
    author or an admin), and adding or replacing the caller's rating. */
module CommentController {
  import opened Common
  import opened Strings
  import opened UserSchema
  import opened NoteSchema
  import opened Store

  /** The request carries comment text that is not blank. */
  predicate CommentTextOk(text: Option<string>)
  {
    text.Some? && Trim(text.value) != ""
  }

  /** `comments.id(cid)`: the place of the comment with that identifier. */
  function FindComment(cs: seq<Comment>, cid: Id): (r: Option<nat>)
    ensures r.None? <==> forall i :: 0 <= i < |cs| ==> cs[i].id != cid
    ensures r.Some? ==> r.value < |cs| && cs[r.value].id == cid
    ensures r.Some? ==> forall i :: 0 <= i < r.value ==> cs[i].id != cid
  {
    if cs == [] then None
    else if cs[0].id == cid then Some(0)
    else match FindComment(cs[1..], cid)
      case None => None
      case Some(i) => Some(i + 1)
  }

  /** Removing the comment at the place of `cid` removes exactly the
      comment with that identifier when identifiers are distinct. */
  lemma RemoveCommentById(cs: seq<Comment>, i: nat, cid: Id)
    requires CommentIdsDistinct(cs) && i < |cs| && cs[i].id == cid
    ensures CommentIdsDistinct(RemoveAt(cs, i))
    ensures forall c :: c in RemoveAt(cs, i) <==> c in cs && c.id != cid
  {
    var r := RemoveAt(cs, i);
    forall c ensures c in r <==> c in cs && c.id != cid {
      if c in r {
        var j :| 0 <= j < |r| && r[j] == c;
        if j >= i { assert r[j] == cs[j + 1]; }
      }
      if c in cs && c.id != cid {
        var j :| 0 <= j < |cs| && cs[j] == c;
        if j < i { assert r[j] == c; } else { assert j > i && r[j - 1] == c; }
      }
    }
  }

  /** Only the author of a comment or an admin may delete it. */
  predicate MayDeleteComment(actor: User, c: Comment)
  {
    c.user == actor.id || actor.role == Admin
  }

  /** `!rating || rating < 1 || rating > 5` lets the request through. */
  predicate RatingAccepted(rating: Option<real>)
  {
    rating.Some? && !(rating.value == 0.0 || rating.value < 1.0 || rating.value > 5.0)
  }

  /** `ratings.find(r => r.user == user)`: the place of the user's rating. */
  function FindRating(rs: seq<Rating>, user: Id): (r: Option<nat>)
    ensures r.None? <==> forall i :: 0 <= i < |rs| ==> rs[i].user != user
    ensures r.Some? ==> r.value < |rs| && rs[r.value].user == user
    ensures r.Some? ==> forall i :: 0 <= i < r.value ==> rs[i].user != user
  {
    if rs == [] then None
    else if rs[0].user == user then Some(0)
    else match FindRating(rs[1..], user)
      case None => None
      case Some(i) => Some(i + 1)
  }

  /** The first rating of `user` is the one `find` returns. */
  lemma FindRatingAt(rs: seq<Rating>, user: Id, i: nat)
    requires i < |rs| && rs[i].user == user
    requires forall j :: 0 <= j < i ==> rs[j].user != user
    ensures FindRating(rs, user) == Some(i)
  {
  }

  /** The ratings after `user` rates `v`: the user's existing rating takes
      the new value in place, or a new rating is appended; nobody else's
      rating changes. */
  function UpsertRating(rs: seq<Rating>, user: Id, v: real): (r: seq<Rating>)
    ensures FindRating(rs, user).Some? ==> |r| == |rs|
    ensures FindRating(rs, user).None? ==> |r| == |rs| + 1 && r[|rs|] == Rating(user, v)
    ensures forall i :: 0 <= i < |rs| && rs[i].user != user ==> r[i] == rs[i]
    ensures FindRating(r, user).Some? && r[FindRating(r, user).value].value == v
  {
    match FindRating(rs, user)
    case Some(i) =>
      var r := rs[i := Rating(user, v)];
      FindRatingAt(r, user, i);
      r
    case None =>
      var r := rs + [Rating(user, v)];
      FindRatingAt(r, user, |rs|);
      r
  }

  /** Rating again replaces the earlier rating: the second upsert undoes
      every trace of the first. */
  lemma UpsertTwice(rs: seq<Rating>, user: Id, a: real, b: real)
    ensures UpsertRating(UpsertRating(rs, user, a), user, b) == UpsertRating(rs, user, b)
  {
    var r1 := UpsertRating(rs, user, a);
    match FindRating(rs, user)
    case Some(i) =>
      FindRatingAt(r1, user, i);
    case None =>
      FindRatingAt(r1, user, |rs|);
  }

  /** Upserting keeps one rating per user and ratings inside 1..5. */
  lemma UpsertKeepsInvariant(rs: seq<Rating>, user: Id, v: real)
    requires OneRatingPerUser(rs) && RatingsInRange(rs) && RatingInRange(v)
    ensures OneRatingPerUser(UpsertRating(rs, user, v))
    ensures RatingsInRange(UpsertRating(rs, user, v))
  {
    var r := UpsertRating(rs, user, v);
    match FindRating(rs, user)
    case Some(i) =>
      assert forall j :: 0 <= j < |rs| && j != i ==> rs[j].user != user;
      assert forall j :: 0 <= j < |r| && j != i ==> r[j] == rs[j];
    case None =>
      assert forall j :: 0 <= j < |rs| ==> r[j] == rs[j];
  }

  /** Appending a comment with a fresh, larger identifier and some text
      keeps the note invariant, and keeps every comment identifier below
      the next one. */
  lemma AppendCommentKeepsInvariant(n: Note, c: Comment)
    requires NoteInvariant(n) && c.text != ""
    requires forall i :: 0 <= i < |n.comments| ==> n.comments[i].id < c.id
    ensures NoteInvariant(n.(comments := n.comments + [c]))
    ensures forall i :: 0 <= i < |n.comments| + 1 ==> (n.comments + [c])[i].id <= c.id
  {
    var cs := n.comments + [c];
    assert forall i :: 0 <= i < |n.comments| ==> cs[i] == n.comments[i];
  }

  /** POST /:id/comments. */
  method AddComment(db: Db, actor: Id, noteId: Id, text: Option<string>, now: int)
    returns (reply: Reply<Note>)
    requires db.Valid() && actor in db.users
    modifies db
    ensures db.Valid()
    ensures db.users == old(db.users) && db.announcements == old(db.announcements)
    ensures db.files == old(db.files)
    ensures !CommentTextOk(text) ==>
      reply == Err(BAD_REQUEST, "Comment text is required") && unchanged(db)
    ensures CommentTextOk(text) && noteId !in old(db.notes) ==>
      reply == Err(NOT_FOUND, "Note not found") && unchanged(db)
    ensures CommentTextOk(text) && noteId in old(db.notes) ==>
      var n := old(db.notes)[noteId];
      var c := Comment(old(db.nextId), actor, Trim(text.value), now);
      && db.nextId == old(db.nextId) + 1
      && db.notes == old(db.notes)[noteId := n.(comments := n.comments + [c])]
      && reply == Ok(CREATED, db.notes[noteId])
  {
    if !CommentTextOk(text) {
      return Err(BAD_REQUEST, "Comment text is required");
    }
    if noteId !in db.notes {
      return Err(NOT_FOUND, "Note not found");
    }
    var n := db.notes[noteId];
    var cid := db.NewId();
    var c := Comment(cid, actor, Trim(text.value), now);
    var n' := n.(comments := n.comments + [c]);
    AppendCommentKeepsInvariant(n, c);
    db.SaveNote(n');
    reply := Ok(CREATED, n');
  }

  /** DELETE /:id/comments/:commentId. On success exactly the comment with
      that identifier is gone from the note. */
  method DeleteComment(db: Db, actor: Id, noteId: Id, commentId: Id)
    returns (reply: Reply<string>)
    requires db.Valid() && actor in db.users
    modifies db
    ensures db.Valid()
    ensures db.users == old(db.users) && db.announcements == old(db.announcements)
    ensures db.files == old(db.files) && db.nextId == old(db.nextId)
    ensures noteId !in old(db.notes) ==>
      reply == Err(NOT_FOUND, "Note not found") && db.notes == old(db.notes)
    ensures noteId in old(db.notes) ==>
      var n := old(db.notes)[noteId];
      match FindComment(n.comments, commentId)
      case None =>
        reply == Err(NOT_FOUND, "Comment not found") && db.notes == old(db.notes)
      case Some(i) =>
        if !MayDeleteComment(old(db.users)[actor], n.comments[i]) then
          reply == Err(FORBIDDEN, "Not authorized to delete this comment")
          && db.notes == old(db.notes)
        else
          && reply == Ok(OK, "Comment deleted")
          && db.notes == old(db.notes)[noteId := n.(comments := RemoveAt(n.comments, i))]
          && (forall c :: c in db.notes[noteId].comments <==> c in n.comments && c.id != commentId)
  {
    if noteId !in db.notes {
      return Err(NOT_FOUND, "Note not found");
    }
    var n := db.notes[noteId];
    var found := FindComment(n.comments, commentId);
    if found.None? {
      return Err(NOT_FOUND, "Comment not found");
    }
    var i := found.value;
    if !MayDeleteComment(db.users[actor], n.comments[i]) {
      return Err(FORBIDDEN, "Not authorized to delete this comment");
    }
    var cs := RemoveAt(n.comments, i);
    var n' := n.(comments := cs);
    RemoveCommentById(n.comments, i, commentId);
    db.SaveNote(n');
    reply := Ok(OK, "Comment deleted");
  }

  /** POST /:id/ratings. The reply carries the new average, which is the
      mean of the ratings after the caller's rating was recorded. */
  method AddRating(db: Db, actor: Id, noteId: Id, rating: Option<real>)
    returns (reply: Reply<real>)
    requires db.Valid() && actor in db.users
    modifies db
    ensures db.Valid()
    ensures db.users == old(db.users) && db.announcements == old(db.announcements)
    ensures db.files == old(db.files) && db.nextId == old(db.nextId)
    ensures !RatingAccepted(rating) ==>
      reply == Err(BAD_REQUEST, "Rating must be between 1 and 5") && db.notes == old(db.notes)
    ensures RatingAccepted(rating) && noteId !in old(db.notes) ==>
      reply == Err(NOT_FOUND, "Note not found") && db.notes == old(db.notes)
    ensures RatingAccepted(rating) && noteId in old(db.notes) ==>
      var n := old(db.notes)[noteId];
      var rs := UpsertRating(n.ratings, actor, rating.value);
      && db.notes == old(db.notes)[noteId := n.(ratings := rs, averageRating := Mean(rs))]
      && reply == Ok(OK, Mean(rs))
      && RatingInRange(reply.value)
  {
    if !RatingAccepted(rating) {
      return Err(BAD_REQUEST, "Rating must be between 1 and 5");
    }
    if noteId !in db.notes {
      return Err(NOT_FOUND, "Note not found");
    }
    var n := db.notes[noteId];
    var v := rating.value;
    var existing := FindRating(n.ratings, actor);
    var rs;
    if existing.Some? {
      rs := n.ratings[existing.value := Rating(actor, v)];
    } else {
      rs := n.ratings + [Rating(actor, v)];
    }
    assert rs == UpsertRating(n.ratings, actor, v);
    UpsertKeepsInvariant(n.ratings, actor, v);
    var n' := CalculateAverageRating(n.(ratings := rs));
    MeanInRange(rs);
    db.SaveNote(n');
    reply := Ok(OK, n'.averageRating);
  }
}
