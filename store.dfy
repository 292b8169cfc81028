/** The document store behind the controllers: the three collections, the
    upload directory and the identifier generator. */
module Store {
  import opened Common
  import opened UserSchema
  import opened NoteSchema
  import opened AnnouncementSchema

  /** The unique index on `email`. */
  ghost predicate EmailsUnique(users: map<Id, User>)
  {
    forall a, b {:trigger users[a].email, users[b].email} ::
      a in users && b in users && users[a].email == users[b].email ==> a == b
  }

  ghost predicate UsersOk(users: map<Id, User>, nextId: Id)
  {
    forall k :: k in users ==> k < nextId && users[k].id == k && ValidUser(users[k])
  }

  ghost predicate NotesOk(notes: map<Id, Note>, nextId: Id)
  {
    forall k :: k in notes ==>
      && k < nextId && notes[k].id == k && NoteInvariant(notes[k])
      && (forall i :: 0 <= i < |notes[k].comments| ==> notes[k].comments[i].id < nextId)
  }

  ghost predicate AnnouncementsOk(announcements: map<Id, Announcement>, nextId: Id)
  {
    forall k :: k in announcements ==>
      k < nextId && announcements[k].id == k && ValidAnnouncement(announcements[k])
  }

  /** Replacing one note by a record that keeps the note invariants keeps
      the collection well formed. */
  lemma NotesOkUpdate(notes: map<Id, Note>, nextId: Id, k: Id, n: Note)
    requires NotesOk(notes, nextId)
    requires k < nextId && n.id == k && NoteInvariant(n)
    requires forall i :: 0 <= i < |n.comments| ==> n.comments[i].id < nextId
    ensures NotesOk(notes[k := n], nextId)
  {
  }

  /** Replacing a user by a valid record with the same email keeps the
      collection well formed and the emails unique. */
  lemma UsersOkUpdate(users: map<Id, User>, nextId: Id, k: Id, u: User)
    requires UsersOk(users, nextId) && EmailsUnique(users)
    requires k in users && u.id == k && ValidUser(u) && u.email == users[k].email
    ensures UsersOk(users[k := u], nextId) && EmailsUnique(users[k := u])
  {
  }

  class Db {
    var users: map<Id, User>
    var notes: map<Id, Note>
    var announcements: map<Id, Announcement>
    /** The names of the files in the upload directory. */
    var files: set<string>
    /** The next identifier to hand out; every identifier in use is below it. */
    var nextId: Id

    /** Every stored record passes its schema and is filed under its own
        identifier, emails are unique, and the application's invariants on
        notes hold. */
    ghost predicate Valid()
      reads this
    {
      && UsersOk(users, nextId)
      && EmailsUnique(users)
      && NotesOk(notes, nextId)
      && AnnouncementsOk(announcements, nextId)
    }

    constructor ()
      ensures Valid()
      ensures users == map[] && notes == map[] && announcements == map[]
      ensures files == {} && nextId == 0
    {
      users := map[];
      notes := map[];
      announcements := map[];
      files := {};
      nextId := 0;
    }

    /** A new ObjectId: unused by every collection and every comment. */
    method NewId() returns (id: Id)
      requires Valid()
      modifies this
      ensures Valid()
      ensures id == old(nextId) && nextId == id + 1
      ensures id !in users && id !in notes && id !in announcements
      ensures users == old(users) && notes == old(notes)
      ensures announcements == old(announcements) && files == old(files)
    {
      id := nextId;
      nextId := nextId + 1;
    }

    /** `note.save()` of an existing note. */
    method SaveNote(n: Note)
      requires Valid() && n.id in notes && NoteInvariant(n)
      requires forall i :: 0 <= i < |n.comments| ==> n.comments[i].id < nextId
      modifies this
      ensures Valid()
      ensures notes == old(notes)[n.id := n]
      ensures users == old(users) && announcements == old(announcements)
      ensures files == old(files) && nextId == old(nextId)
    {
      NotesOkUpdate(notes, nextId, n.id, n);
      notes := notes[n.id := n];
    }

    /** `Note.create`: stores a note under the next identifier. */
    method CreateNote(n: Note)
      requires Valid() && n.id == nextId && NoteInvariant(n) && n.comments == []
      modifies this
      ensures Valid()
      ensures nextId == old(nextId) + 1 && notes == old(notes)[n.id := n]
      ensures users == old(users) && announcements == old(announcements) && files == old(files)
    {
      nextId := nextId + 1;
      NotesOkUpdate(notes, nextId, n.id, n);
      notes := notes[n.id := n];
    }

    /** `user.save()` of an existing user whose email stays the same. */
    method SaveUser(u: User)
      requires Valid() && u.id in users && ValidUser(u) && u.email == users[u.id].email
      modifies this
      ensures Valid()
      ensures users == old(users)[u.id := u]
      ensures notes == old(notes) && announcements == old(announcements)
      ensures files == old(files) && nextId == old(nextId)
    {
      UsersOkUpdate(users, nextId, u.id, u);
      users := users[u.id := u];
    }

    /** `user.points += n; user.save()`. */
    method AwardPoints(k: Id, n: int)
      requires Valid() && k in users
      modifies this
      ensures Valid()
      ensures users == old(users)[k := old(users)[k].(points := old(users)[k].points + n)]
      ensures notes == old(notes) && announcements == old(announcements)
      ensures files == old(files) && nextId == old(nextId)
    {
      var u := users[k];
      UsersOkUpdate(users, nextId, k, u.(points := u.points + n));
      users := users[k := u.(points := u.points + n)];
    }

    /** `User.create`: stores a user whose email is not taken. */
    method CreateUser(u: User)
      requires Valid() && u.id == nextId && ValidUser(u)
      requires forall k :: k in users ==> users[k].email != u.email
      modifies this
      ensures Valid()
      ensures nextId == old(nextId) + 1 && users == old(users)[u.id := u]
      ensures notes == old(notes) && announcements == old(announcements) && files == old(files)
    {
      nextId := nextId + 1;
      users := users[u.id := u];
    }

    /** `announcement.save()` of an existing announcement. */
    method SaveAnnouncement(a: Announcement)
      requires Valid() && a.id in announcements && ValidAnnouncement(a)
      modifies this
      ensures Valid()
      ensures announcements == old(announcements)[a.id := a]
      ensures users == old(users) && notes == old(notes)
      ensures files == old(files) && nextId == old(nextId)
    {
      announcements := announcements[a.id := a];
    }

    /** `Announcement.create`: stores an announcement under the next
        identifier. */
    method CreateAnnouncement(a: Announcement)
      requires Valid() && a.id == nextId && ValidAnnouncement(a)
      modifies this
      ensures Valid()
      ensures nextId == old(nextId) + 1 && announcements == old(announcements)[a.id := a]
      ensures users == old(users) && notes == old(notes) && files == old(files)
    {
      nextId := nextId + 1;
      announcements := announcements[a.id := a];
    }
  }
}
