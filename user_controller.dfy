/** The profile endpoints, all behind the authentication middleware: read
    the caller's profile, update it field by field, change the password,
    and toggle a note in the caller's favorites. */
module UserController {
  import opened Common
  import opened Strings
  import opened UserSchema
  import opened Store

  /* ---------------------------------------------------------------- */
  /* getProfile                                                        */

  /** GET /api/users/profile: the caller's record without its password. */
  function GetProfile(users: map<Id, User>, actor: Id): (r: Reply<PublicUser>)
    requires actor in users
    ensures r == Ok(OK, WithoutPassword(users[actor]))
  {
    Ok(OK, WithoutPassword(users[actor]))
  }

  /** The profile read does not depend on the stored secret: two records
      that differ only in their password read the same. */
  lemma ProfileHidesPassword(users: map<Id, User>, actor: Id, d: Digest)
    requires actor in users
    ensures GetProfile(users, actor) == GetProfile(users[actor := users[actor].(password := d)], actor)
  {
  }

  /* ---------------------------------------------------------------- */
  /* updateProfile                                                     */

  /** The record after the assignments of `updateProfile`: `name` only
      when truthy (through the trimming setter), `bio` and `avatar`
      whenever they are present, the empty string included. */
  function PatchProfile(u: User, name: Option<string>, bio: Option<string>, avatar: Option<string>)
    : (r: User)
    ensures r.(name := u.name, bio := u.bio, avatar := u.avatar) == u
    ensures r.name == if Truthy(name) then Trim(name.value) else u.name
    ensures r.bio == if bio.Some? then bio.value else u.bio
    ensures r.avatar == if avatar.Some? then avatar.value else u.avatar
  {
    var u1 := if Truthy(name) then u.(name := Trim(name.value)) else u;
    var u2 := if bio.Some? then u1.(bio := bio.value) else u1;
    if avatar.Some? then u2.(avatar := avatar.value) else u2
  }

  /** Sending the same update twice is sending it once. */
  lemma PatchProfileIdempotent(u: User, name: Option<string>, bio: Option<string>, avatar: Option<string>)
    ensures PatchProfile(PatchProfile(u, name, bio, avatar), name, bio, avatar)
         == PatchProfile(u, name, bio, avatar)
  {
    if Truthy(name) {
      TrimIdempotent(name.value);
    }
  }

  /** A patch of a valid record fails validation exactly when the trimmed
      new name is empty or the new bio is too long. */
  lemma PatchProfileValid(u: User, name: Option<string>, bio: Option<string>, avatar: Option<string>)
    requires ValidUser(u)
    ensures ValidUser(PatchProfile(u, name, bio, avatar)) <==>
      && (Truthy(name) ==> Trim(name.value) != "")
      && (bio.Some? ==> Utf16Length(bio.value) <= MAX_BIO_LENGTH)
  {
  }

  /** PUT /api/users/profile. A patch that fails validation is a server
      error and nothing is saved. */
  method UpdateProfile(db: Db, actor: Id, name: Option<string>, bio: Option<string>,
                       avatar: Option<string>)
    returns (reply: Reply<PublicUser>)
    requires db.Valid() && actor in db.users
    modifies db
    ensures db.Valid()
    ensures db.notes == old(db.notes) && db.announcements == old(db.announcements)
    ensures db.files == old(db.files) && db.nextId == old(db.nextId)
    ensures var u := PatchProfile(old(db.users)[actor], name, bio, avatar);
      if ValidUser(u) then
        db.users == old(db.users)[actor := u] && reply == Ok(OK, WithoutPassword(u))
      else
        db.users == old(db.users) && reply.Err? && reply.status == SERVER_ERROR
  {
    var u := db.users[actor];
    if Truthy(name) {
      u := u.(name := Trim(name.value));
    }
    if bio.Some? {
      u := u.(bio := bio.value);
    }
    if avatar.Some? {
      u := u.(avatar := avatar.value);
    }
    if !ValidUser(u) {
      return Err(SERVER_ERROR, "Validation failed");
    }
    db.SaveUser(u);
    reply := Ok(OK, WithoutPassword(u));
  }

  /* ---------------------------------------------------------------- */
  /* changePassword                                                    */

  /** PUT /api/users/change-password. The current password must match;
      the new one must pass the schema's minimum length (checked on the
      plain text, before the pre-save hook hashes it). */
  method ChangePassword(db: Db, actor: Id, currentPassword: Option<string>,
                        newPassword: Option<string>)
    returns (reply: Reply<string>)
    requires db.Valid() && actor in db.users
    modifies db
    ensures db.Valid()
    ensures db.notes == old(db.notes) && db.announcements == old(db.announcements)
    ensures db.files == old(db.files) && db.nextId == old(db.nextId)
    ensures !Truthy(currentPassword) || !Truthy(newPassword) ==>
      reply == Err(BAD_REQUEST, "Please provide current and new password") && db.users == old(db.users)
    ensures Truthy(currentPassword) && Truthy(newPassword) ==>
      var u := old(db.users)[actor];
      if !ComparePassword(currentPassword.value, u.password) then
        reply == Err(UNAUTHORIZED, "Current password is incorrect") && db.users == old(db.users)
      else if !PasswordLongEnough(newPassword.value) then
        reply.Err? && reply.status == SERVER_ERROR && db.users == old(db.users)
      else
        && reply == Ok(OK, "Password changed successfully")
        && db.users == old(db.users)[actor := u.(password := PreSave(u.password, newPassword))]
  {
    if !Truthy(currentPassword) || !Truthy(newPassword) {
      return Err(BAD_REQUEST, "Please provide current and new password");
    }
    var u := db.users[actor];
    if !ComparePassword(currentPassword.value, u.password) {
      return Err(UNAUTHORIZED, "Current password is incorrect");
    }
    if !PasswordLongEnough(newPassword.value) {
      return Err(SERVER_ERROR, "Validation failed");
    }
    db.SaveUser(u.(password := PreSave(u.password, newPassword)));
    reply := Ok(OK, "Password changed successfully");
  }

  /** After a change the new password is the only one that matches. */
  lemma ChangedPasswordMatches(u: User, newPassword: string, candidate: string)
    ensures ComparePassword(candidate, PreSave(u.password, Some(newPassword))) <==> candidate == newPassword
  {
  }

  /* ---------------------------------------------------------------- */
  /* toggleFavorite                                                    */

  /** The favorites after a toggle: the first occurrence of `id` removed
      when it is there, `id` appended otherwise. */
  function Toggled(favs: seq<Id>, id: Id): (r: seq<Id>)
    ensures id in favs ==> |r| == |favs| - 1
    ensures id !in favs ==> r == favs + [id]
  {
    match IndexOf(favs, id)
    case Some(i) => RemoveAt(favs, i)
    case None => favs + [id]
  }

  /** Removing the first occurrence keeps everything before it and shifts
      everything after it. */
  lemma ToggledPresent(favs: seq<Id>, id: Id)
    requires id in favs
    ensures IndexOf(favs, id).Some?
    ensures Toggled(favs, id) == favs[..IndexOf(favs, id).value] + favs[IndexOf(favs, id).value + 1..]
    ensures id !in favs[..IndexOf(favs, id).value]
  {
  }

  /** Toggling an absent id twice gives back the original list. */
  lemma ToggleTwiceAbsent(favs: seq<Id>, id: Id)
    requires id !in favs
    ensures Toggled(Toggled(favs, id), id) == favs
  {
    var once := favs + [id];
    assert IndexOf(once, id) == Some(|favs|);
    assert once[..|favs|] == favs;
  }

  /** Toggling a present id twice, in a list without repetitions, moves it
      to the end: the same elements, the others in their old order. */
  lemma ToggleTwicePresent(favs: seq<Id>, id: Id)
    requires id in favs && NoDup(favs)
    ensures var i := IndexOf(favs, id).value;
      Toggled(Toggled(favs, id), id) == favs[..i] + favs[i + 1..] + [id]
    ensures multiset(Toggled(Toggled(favs, id), id)) == multiset(favs)
  {
    var i := IndexOf(favs, id).value;
    var pre, post := favs[..i], favs[i + 1..];
    NoDupAfter(favs, i);
    var once := pre + post;
    assert Toggled(favs, id) == once;
    assert id !in once;
    assert Toggled(once, id) == once + [id];
    assert favs == pre + [id] + post;
    assert multiset(favs) == multiset(pre) + multiset{id} + multiset(post);
  }

  /** In a list without repetitions nothing after a place repeats it. */
  lemma NoDupAfter(s: seq<Id>, i: nat)
    requires NoDup(s) && i < |s|
    ensures s[i] !in s[i + 1..]
  {
    var rest := s[i + 1..];
    forall j | 0 <= j < |rest| ensures rest[j] != s[i] {
      assert rest[j] == s[i + 1 + j];
    }
  }

  /** A list without repetitions stays without repetitions. */
  lemma ToggledNoDup(favs: seq<Id>, id: Id)
    requires NoDup(favs)
    ensures NoDup(Toggled(favs, id))
  {
    if id in favs {
      var i := IndexOf(favs, id).value;
      var r := Toggled(favs, id);
      forall a, b | 0 <= a < b < |r| ensures r[a] != r[b] {
        var a' := if a < i then a else a + 1;
        var b' := if b < i then b else b + 1;
        assert r[a] == favs[a'] && r[b] == favs[b'];
      }
    } else {
      var r := favs + [id];
      forall a, b | 0 <= a < b < |r| ensures r[a] != r[b] {
        if b == |favs| {
          assert r[a] == favs[a];
        }
      }
    }
  }

  /** The reply of a toggle. */
  datatype FavoriteReply = FavoriteReply(message: string, isFavorite: bool)

  /** POST /api/users/favorites/:noteId. No check is made that the note
      exists. The reply says whether the note is a favorite afterwards. */
  method ToggleFavorite(db: Db, actor: Id, noteId: Id) returns (reply: Reply<FavoriteReply>)
    requires db.Valid() && actor in db.users
    modifies db
    ensures db.Valid()
    ensures db.notes == old(db.notes) && db.announcements == old(db.announcements)
    ensures db.files == old(db.files) && db.nextId == old(db.nextId)
    ensures var u := old(db.users)[actor];
      db.users == old(db.users)[actor := u.(favorites := Toggled(u.favorites, noteId))]
    ensures noteId in old(db.users)[actor].favorites ==>
      reply == Ok(OK, FavoriteReply("Removed from favorites", false))
    ensures noteId !in old(db.users)[actor].favorites ==>
      reply == Ok(OK, FavoriteReply("Added to favorites", true))
  {
    var u := db.users[actor];
    var favorites := u.favorites;
    var index := IndexOf(favorites, noteId);
    if index.Some? {
      favorites := favorites[..index.value] + favorites[index.value + 1..];
      db.SaveUser(u.(favorites := favorites));
      reply := Ok(OK, FavoriteReply("Removed from favorites", false));
    } else {
      favorites := favorites + [noteId];
      db.SaveUser(u.(favorites := favorites));
      reply := Ok(OK, FavoriteReply("Added to favorites", true));
    }
  }
}
