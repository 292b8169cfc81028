/** The announcement endpoints: creation with defaults, the listing of the
    current announcements for a department and semester (pinned first,
    newest first), reading one, and updating or deleting one, which only
    its creator or an administrator may do. */
module AnnouncementController {
  import opened Common
  import opened Strings
  import opened Query
  import opened UserSchema
  import opened AnnouncementSchema
  import opened Store

  /* ---------------------------------------------------------------- */
  /* createAnnouncement                                                */

  /** The body of POST /api/announcements. */
  datatype AnnouncementForm = AnnouncementForm(
    title: Option<string>,
    content: Option<string>,
    department: Option<string>,
    semester: Option<int>,
    priority: Option<string>,
    expiresAt: Option<int>,
    isPinned: Option<bool>)

  /** `semester || 0`. */
  function SemesterOrAll(semester: Option<int>): (r: int)
    ensures semester.Some? ==> r == semester.value
    ensures semester.None? ==> r == ALL_SEMESTERS
  {
    if semester.Some? then semester.value else ALL_SEMESTERS
  }

  /** The record `Announcement.create` builds: the audience, the semester
      and the priority fall back on their defaults, the title goes through
      the trimming setter, the announcement is active and its creator is the
      caller. `None` when the audience or the priority is outside its enum. */
  function NewAnnouncement(id: Id, f: AnnouncementForm, actor: Id, now: int): (r: Option<Announcement>)
    requires Truthy(f.title) && Truthy(f.content)
    ensures r.None? <==>
      || ParseAudience(OrElse(f.department, DEFAULT_AUDIENCE)).None?
      || ParsePriority(OrElse(f.priority, DEFAULT_PRIORITY)).None?
    ensures r.Some? ==>
      && r.value.id == id && r.value.createdBy == actor && r.value.createdAt == now
      && r.value.title == Trim(f.title.value) && r.value.content == f.content.value
      && AudienceName(r.value.department) == OrElse(f.department, DEFAULT_AUDIENCE)
      && PriorityName(r.value.priority) == OrElse(f.priority, DEFAULT_PRIORITY)
      && r.value.semester == SemesterOrAll(f.semester)
      && r.value.expiresAt == f.expiresAt
      && r.value.isActive && r.value.isPinned == (f.isPinned == Some(true))
  {
    match (ParseAudience(OrElse(f.department, DEFAULT_AUDIENCE)),
           ParsePriority(OrElse(f.priority, DEFAULT_PRIORITY)))
    case (Some(audience), Some(priority)) =>
      Some(Announcement(id, Trim(f.title.value), f.content.value, audience,
                        SemesterOrAll(f.semester), priority, actor, f.expiresAt,
                        true, f.isPinned == Some(true), now))
    case _ => None
  }

  /** A form with only a title and content addresses everybody in every
      semester, with normal priority, unpinned. */
  lemma NewAnnouncementDefaults(id: Id, title: string, content: string, actor: Id, now: int)
    requires title != "" && content != ""
    ensures var f := AnnouncementForm(Some(title), Some(content), None, None, None, None, None);
      var r := NewAnnouncement(id, f, actor, now);
      && r.Some? && r.value.department == All && r.value.semester == ALL_SEMESTERS
      && r.value.priority == Normal && !r.value.isPinned && r.value.isActive
  {
    var f := AnnouncementForm(Some(title), Some(content), None, None, None, None, None);
    assert OrElse(f.department, DEFAULT_AUDIENCE) == "All";
    assert OrElse(f.priority, DEFAULT_PRIORITY) == "normal";
  }

  /** POST /api/announcements. The route lets only teachers and
      administrators in; the handler itself checks the two required
      fields, and a record the schema rejects is a server error. */
  method CreateAnnouncement(db: Db, actor: Id, f: AnnouncementForm, now: int)
    returns (reply: Reply<Announcement>)
    requires db.Valid() && actor in db.users
    modifies db
    ensures db.Valid()
    ensures db.users == old(db.users) && db.notes == old(db.notes) && db.files == old(db.files)
    ensures !Truthy(f.title) || !Truthy(f.content) ==>
      && reply == Err(BAD_REQUEST, "Title and content are required")
      && db.announcements == old(db.announcements) && db.nextId == old(db.nextId)
    ensures Truthy(f.title) && Truthy(f.content) ==>
      var created := NewAnnouncement(old(db.nextId), f, actor, now);
      if created.Some? && ValidAnnouncement(created.value) then
        && db.announcements == old(db.announcements)[old(db.nextId) := created.value]
        && db.nextId == old(db.nextId) + 1
        && reply == Ok(CREATED, created.value)
      else
        && reply.Err? && reply.status == SERVER_ERROR
        && db.announcements == old(db.announcements) && db.nextId == old(db.nextId)
  {
    if !Truthy(f.title) || !Truthy(f.content) {
      return Err(BAD_REQUEST, "Title and content are required");
    }
    var created := NewAnnouncement(db.nextId, f, actor, now);
    if created.None? || !ValidAnnouncement(created.value) {
      return Err(SERVER_ERROR, "Validation failed");
    }
    db.CreateAnnouncement(created.value);
    reply := Ok(CREATED, created.value);
  }

  /* ---------------------------------------------------------------- */
  /* getAnnouncements                                                  */

  /** The query string of GET /api/announcements. */
  datatype AnnouncementQuery = AnnouncementQuery(department: Option<string>, semester: Option<string>)

  /** Active, and without an expiry or expiring after `now`. */
  predicate Current(a: Announcement, now: int)
  {
    a.isActive && (a.expiresAt.None? || a.expiresAt.value > now)
  }

  /** The department filter applies to a truthy department other than
      "All"; it admits announcements for everybody and for that
      department. */
  predicate ForDepartment(a: Announcement, q: AnnouncementQuery)
  {
    Truthy(q.department) && q.department.value != DEFAULT_AUDIENCE ==>
      a.department == All || AudienceName(a.department) == q.department.value
  }

  /** The semester filter applies to a truthy semester; it admits
      announcements for every semester and for that semester. */
  predicate ForSemester(a: Announcement, q: AnnouncementQuery)
  {
    Truthy(q.semester) && ParseInt(q.semester.value).Some? ==>
      a.semester == ALL_SEMESTERS || a.semester == ParseInt(q.semester.value).value
  }

  /** The semester parameter is truthy but `parseInt` gives `NaN`: the
      query cannot be cast. */
  predicate SemesterCastFails(q: AnnouncementQuery)
  {
    Truthy(q.semester) && ParseInt(q.semester.value).None?
  }

  predicate Listed(a: Announcement, q: AnnouncementQuery, now: int)
  {
    Current(a, now) && ForDepartment(a, q) && ForSemester(a, q)
  }

  /** `.sort({ isPinned: -1, createdAt: -1 })`. */
  function PinnedKey(a: Announcement): SortKey
  {
    SortKey(if a.isPinned then 1 else 0, a.createdAt)
  }

  /** GET /api/announcements: the current matching announcements, pinned
      ones first, newest first within each group. */
  function GetAnnouncements(announcements: map<Id, Announcement>, q: AnnouncementQuery, now: int)
    : (r: Reply<seq<Announcement>>)
    ensures r.Err? <==> SemesterCastFails(q)
    ensures r.Err? ==> r.status == SERVER_ERROR
    ensures r.Ok? ==> r.status == OK && SortedDesc(r.value, PinnedKey)
    ensures r.Ok? ==>
      multiset(r.value) == multiset(Filter(Records(announcements), a => Listed(a, q, now)))
  {
    if SemesterCastFails(q) then Err(SERVER_ERROR, "Cast to Number failed")
    else Ok(OK, SortDesc(Filter(Records(announcements), a => Listed(a, q, now)), PinnedKey))
  }

  /** The listing holds exactly the stored announcements that are current
      and match the query. */
  lemma GetAnnouncementsExact(announcements: map<Id, Announcement>, q: AnnouncementQuery, now: int)
    requires !SemesterCastFails(q)
    ensures forall a :: a in GetAnnouncements(announcements, q, now).value <==>
      a in announcements.Values && Listed(a, q, now)
  {
    SortedFilterExact(announcements, a => Listed(a, q, now), PinnedKey);
  }

  /** No unpinned announcement is listed before a pinned one. */
  lemma PinnedFirst(announcements: map<Id, Announcement>, q: AnnouncementQuery, now: int)
    requires !SemesterCastFails(q)
    ensures var r := GetAnnouncements(announcements, q, now).value;
      forall i, j :: 0 <= i < j < |r| && r[j].isPinned ==> r[i].isPinned
  {
    var r := GetAnnouncements(announcements, q, now).value;
    forall i, j | 0 <= i < j < |r| && r[j].isPinned ensures r[i].isPinned {
      assert KeyGe(PinnedKey(r[i]), PinnedKey(r[j]));
    }
  }

  /** A current announcement for everybody in every semester is listed
      whatever the department and semester asked for. */
  lemma BroadcastAlwaysListed(announcements: map<Id, Announcement>, q: AnnouncementQuery, now: int, k: Id)
    requires !SemesterCastFails(q) && k in announcements
    requires announcements[k].department == All && announcements[k].semester == ALL_SEMESTERS
    requires Current(announcements[k], now)
    ensures announcements[k] in GetAnnouncements(announcements, q, now).value
  {
    GetAnnouncementsExact(announcements, q, now);
  }

  /** An announcement is no longer listed once it has expired. */
  lemma ExpiredNotListed(announcements: map<Id, Announcement>, q: AnnouncementQuery, now: int, a: Announcement)
    requires !SemesterCastFails(q)
    requires a.expiresAt.Some? && a.expiresAt.value <= now
    ensures a !in GetAnnouncements(announcements, q, now).value
  {
    GetAnnouncementsExact(announcements, q, now);
  }

  /* ---------------------------------------------------------------- */
  /* getAnnouncementById                                               */

  /** GET /api/announcements/:id. */
  function GetAnnouncementById(announcements: map<Id, Announcement>, id: Id): (r: Reply<Announcement>)
    ensures id !in announcements <==> r == Err(NOT_FOUND, "Announcement not found")
    ensures r.Ok? ==> r.status == OK && id in announcements && r.value == announcements[id]
  {
    if id !in announcements then Err(NOT_FOUND, "Announcement not found")
    else Ok(OK, announcements[id])
  }

  /* ---------------------------------------------------------------- */
  /* updateAnnouncement, deleteAnnouncement                            */

  /** Only the creator of an announcement or an administrator may change
      it. */
  predicate MayManage(a: Announcement, actor: Id, role: Role)
  {
    a.createdBy == actor || role == Admin
  }

  /** The body of PUT /api/announcements/:id. `expiresAt` is `None` when
      not sent and `Some(None)` when sent as `null`, which clears it. */
  datatype AnnouncementPatch = AnnouncementPatch(
    title: Option<string>,
    content: Option<string>,
    department: Option<string>,
    semester: Option<int>,
    priority: Option<string>,
    expiresAt: Option<Option<int>>,
    isPinned: Option<bool>,
    isActive: Option<bool>)

  /** The assignments of `updateAnnouncement`: title, content, audience and
      priority only when truthy, the rest whenever present. `None` when a
      new audience or priority is outside its enum. */
  function Patched(a: Announcement, p: AnnouncementPatch): (r: Option<Announcement>)
    ensures r.None? <==>
      || (Truthy(p.department) && ParseAudience(p.department.value).None?)
      || (Truthy(p.priority) && ParsePriority(p.priority.value).None?)
    ensures r.Some? ==>
      r.value.id == a.id && r.value.createdBy == a.createdBy && r.value.createdAt == a.createdAt
    ensures r.Some? ==> r.value.title == (if Truthy(p.title) then Trim(p.title.value) else a.title)
    ensures r.Some? ==> r.value.content == (if Truthy(p.content) then p.content.value else a.content)
    ensures r.Some? && Truthy(p.department) ==> AudienceName(r.value.department) == p.department.value
    ensures r.Some? && !Truthy(p.department) ==> r.value.department == a.department
    ensures r.Some? && Truthy(p.priority) ==> PriorityName(r.value.priority) == p.priority.value
    ensures r.Some? && !Truthy(p.priority) ==> r.value.priority == a.priority
    ensures r.Some? ==> r.value.semester == (if p.semester.Some? then p.semester.value else a.semester)
    ensures r.Some? ==> r.value.expiresAt == (if p.expiresAt.Some? then p.expiresAt.value else a.expiresAt)
    ensures r.Some? ==> r.value.isPinned == (if p.isPinned.Some? then p.isPinned.value else a.isPinned)
    ensures r.Some? ==> r.value.isActive == (if p.isActive.Some? then p.isActive.value else a.isActive)
  {
    var department := if Truthy(p.department) then ParseAudience(p.department.value) else Some(a.department);
    var priority := if Truthy(p.priority) then ParsePriority(p.priority.value) else Some(a.priority);
    if department.None? || priority.None? then None
    else
      Some(a.(title := if Truthy(p.title) then Trim(p.title.value) else a.title,
              content := if Truthy(p.content) then p.content.value else a.content,
              department := department.value,
              semester := if p.semester.Some? then p.semester.value else a.semester,
              priority := priority.value,
              expiresAt := if p.expiresAt.Some? then p.expiresAt.value else a.expiresAt,
              isPinned := if p.isPinned.Some? then p.isPinned.value else a.isPinned,
              isActive := if p.isActive.Some? then p.isActive.value else a.isActive))
  }

  /** An empty body changes nothing. */
  lemma PatchedEmpty(a: Announcement)
    ensures Patched(a, AnnouncementPatch(None, None, None, None, None, None, None, None)) == Some(a)
  {
  }

  /** Sending the same update twice is sending it once. */
  lemma PatchedIdempotent(a: Announcement, p: AnnouncementPatch)
    requires Patched(a, p).Some?
    ensures Patched(Patched(a, p).value, p) == Patched(a, p)
  {
    if Truthy(p.title) {
      TrimIdempotent(p.title.value);
    }
  }

  /** PUT /api/announcements/:id. */
  method UpdateAnnouncement(db: Db, actor: Id, id: Id, p: AnnouncementPatch)
    returns (reply: Reply<Announcement>)
    requires db.Valid() && actor in db.users
    modifies db
    ensures db.Valid()
    ensures db.users == old(db.users) && db.notes == old(db.notes)
    ensures db.files == old(db.files) && db.nextId == old(db.nextId)
    ensures id !in old(db.announcements) ==>
      reply == Err(NOT_FOUND, "Announcement not found") && db.announcements == old(db.announcements)
    ensures id in old(db.announcements) && !MayManage(old(db.announcements)[id], actor, old(db.users)[actor].role) ==>
      && reply == Err(FORBIDDEN, "Not authorized to update this announcement")
      && db.announcements == old(db.announcements)
    ensures id in old(db.announcements) && MayManage(old(db.announcements)[id], actor, old(db.users)[actor].role) ==>
      var r := Patched(old(db.announcements)[id], p);
      if r.Some? && ValidAnnouncement(r.value) then
        db.announcements == old(db.announcements)[id := r.value] && reply == Ok(OK, r.value)
      else
        && reply.Err? && reply.status == SERVER_ERROR
        && db.announcements == old(db.announcements)
  {
    if id !in db.announcements {
      return Err(NOT_FOUND, "Announcement not found");
    }
    var a := db.announcements[id];
    if !MayManage(a, actor, db.users[actor].role) {
      return Err(FORBIDDEN, "Not authorized to update this announcement");
    }
    var r := Patched(a, p);
    if r.None? || !ValidAnnouncement(r.value) {
      return Err(SERVER_ERROR, "Validation failed");
    }
    db.SaveAnnouncement(r.value);
    reply := Ok(OK, r.value);
  }

  /** DELETE /api/announcements/:id. */
  method DeleteAnnouncement(db: Db, actor: Id, id: Id) returns (reply: Reply<string>)
    requires db.Valid() && actor in db.users
    modifies db
    ensures db.Valid()
    ensures db.users == old(db.users) && db.notes == old(db.notes)
    ensures db.files == old(db.files) && db.nextId == old(db.nextId)
    ensures id !in old(db.announcements) ==>
      reply == Err(NOT_FOUND, "Announcement not found") && db.announcements == old(db.announcements)
    ensures id in old(db.announcements) && !MayManage(old(db.announcements)[id], actor, old(db.users)[actor].role) ==>
      && reply == Err(FORBIDDEN, "Not authorized to delete this announcement")
      && db.announcements == old(db.announcements)
    ensures id in old(db.announcements) && MayManage(old(db.announcements)[id], actor, old(db.users)[actor].role) ==>
      reply == Ok(OK, "Announcement deleted") && db.announcements == old(db.announcements) - {id}
  {
    if id !in db.announcements {
      return Err(NOT_FOUND, "Announcement not found");
    }
    if !MayManage(db.announcements[id], actor, db.users[actor].role) {
      return Err(FORBIDDEN, "Not authorized to delete this announcement");
    }
    db.announcements := db.announcements - {id};
    reply := Ok(OK, "Announcement deleted");
  }

  /** A student can never change an announcement somebody else created. */
  lemma StudentsManageOnlyTheirOwn(a: Announcement, actor: Id)
    requires a.createdBy != actor
    ensures !MayManage(a, actor, Student) && !MayManage(a, actor, Teacher)
    ensures MayManage(a, actor, Admin)
  {
  }

  /** After a deletion the announcement can no longer be read. */
  lemma DeletedNotFound(announcements: map<Id, Announcement>, id: Id)
    ensures GetAnnouncementById(announcements - {id}, id) == Err(NOT_FOUND, "Announcement not found")
  {
  }
}
