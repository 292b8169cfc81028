/** The notes endpoints: upload with derived defaults, filtered listing,
    single read (counts a view), download (counts a download), delete
    (removes the stored file) and the statistics summary. */
module NotesController {
  import opened Common
  import opened Strings
  import opened Query
  import opened UserSchema
  import opened NoteSchema
  import opened Store

  const POINTS_PER_UPLOAD: int := 10
  const TOP_NOTES: nat := 5
  /** Stands for the validation message Mongoose produces. */
  const VALIDATION_FAILED: string := "Validation failed"

  /* ---------------------------------------------------------------- */
  /* path.extname                                                      */

  /** The last place of `c` in `s`. */
  function LastIndexOf(s: string, c: char): (r: Option<nat>)
    ensures r.None? <==> c !in s
    ensures r.Some? ==> r.value < |s| && s[r.value] == c && c !in s[r.value + 1..]
  {
    if s == [] then None
    else if s[|s| - 1] == c then Some(|s| - 1)
    else
      var r := LastIndexOf(s[..|s| - 1], c);
      assert s == s[..|s| - 1] + [s[|s| - 1]];
      r
  }

  /** `path.extname` of a stored file name: from the last dot to the end,
      except that a name without a dot, a name whose only dot leads it
      (`.bashrc`) and `..` have no extension. */
  function Extname(name: string): (r: string)
    ensures r != "" ==> r[0] == '.' && '.' !in r[1..] && |r| <= |name| && r == name[|name| - |r|..]
    ensures '.' !in name ==> r == ""
    ensures name != "" && name[0] == '.' && '.' !in name[1..] ==> r == ""
  {
    match LastIndexOf(name, '.')
    case None => ""
    case Some(d) =>
      if d == 0 || name == ".." then ""
      else
        assert name[d..][1..] == name[d + 1..];
        name[d..]
  }

  /** A name `base.ext` has extension `.ext`. */
  lemma ExtnameOfDotted(base: string, ext: string)
    requires base != "" && ext != "" && '.' !in ext
    ensures Extname(base + "." + ext) == "." + ext
  {
    var name := base + "." + ext;
    var d := |base|;
    assert name[d] == '.' && name[d + 1..] == ext;
    assert LastIndexOf(name, '.') == Some(d);
    assert name[d..] == "." + ext;
  }

  /** The name a download is saved under: the title plus the extension of
      the stored file. */
  function DownloadName(n: Note): string
  {
    n.title + Extname(n.fileURL)
  }

  /* ---------------------------------------------------------------- */
  /* uploadNote                                                         */

  /** What the upload middleware hands over: the stored name and the size. */
  datatype UploadedFile = UploadedFile(filename: string, size: int)

  /** The text fields of the multipart form. */
  datatype UploadForm = UploadForm(
    title: Option<string>,
    subject: Option<string>,
    category: Option<string>,
    tags: Option<string>,
    department: Option<string>,
    semester: Option<string>,
    isImportantForExam: Option<string>,
    examTags: Option<string>,
    syllabusTopics: Option<string>,
    syllabusUnit: Option<string>)

  /** `semester || req.user.semester || 1`, cast to a number; `None` when
      the form's value is not a number. */
  function UploadSemester(form: Option<string>, uploader: Option<int>): (r: Option<int>)
    ensures Truthy(form) ==> r == ParseInt(form.value)
    ensures !Truthy(form) && uploader.Some? && uploader.value != 0 ==> r == uploader
    ensures !Truthy(form) && (uploader.None? || uploader.value == 0) ==> r == Some(1)
  {
    if Truthy(form) then ParseInt(form.value)
    else if uploader.Some? && uploader.value != 0 then uploader
    else Some(1)
  }

  /** `syllabusUnit ? parseInt(syllabusUnit) : undefined`; the outer `None`
      is a `NaN` that the cast rejects. */
  function UploadUnit(form: Option<string>): (r: Option<Option<int>>)
    ensures !Truthy(form) ==> r == Some(None)
    ensures Truthy(form) && ParseInt(form.value).None? ==> r == None
    ensures Truthy(form) && ParseInt(form.value).Some? ==> r == Some(ParseInt(form.value))
  {
    if Truthy(form) then
      match ParseInt(form.value)
      case None => None
      case Some(u) => Some(Some(u))
    else Some(None)
  }

  /** `department || req.user.department || 'Other'`, before the enum check. */
  function UploadDepartment(form: Option<string>, uploader: Option<Department>): (r: string)
    ensures Truthy(form) ==> r == form.value
    ensures !Truthy(form) && uploader.Some? ==> r == DepartmentName(uploader.value)
    ensures !Truthy(form) && uploader.None? ==> r == DepartmentName(DEFAULT_DEPARTMENT)
  {
    if Truthy(form) then form.value
    else if uploader.Some? then DepartmentName(uploader.value)
    else DepartmentName(DEFAULT_DEPARTMENT)
  }

  /** `n` holds what the upload gave, and the defaults elsewhere: the
      title and subject trimmed, the department from the form, else the
      uploader's, else 'Other', the semester likewise with 1 last, category
      'General' unless given, the list fields split at commas and trimmed,
      the exam flag set only by the text 'true', the stored file, the
      uploader, and zero counters with no comments or ratings. */
  ghost predicate DerivedFromUpload(n: Note, id: Id, form: UploadForm, uploader: User,
                                    file: UploadedFile, now: int)
    requires Truthy(form.title) && Truthy(form.subject)
  {
      && n.id == id
      && n.title == Trim(form.title.value) && n.subject == Trim(form.subject.value)
      && Some(n.department) == ParseDepartment(UploadDepartment(form.department, uploader.department))
      && Some(n.semester) == UploadSemester(form.semester, uploader.semester)
      && Some(n.syllabusUnit) == UploadUnit(form.syllabusUnit)
      && n.category == Trim(OrElse(form.category, DEFAULT_CATEGORY))
      && n.tags == SplitTrimmed(form.tags)
      && Some(n.examTags) == ParseExamTags(SplitTrimmed(form.examTags))
      && n.syllabusTopics == SplitTrimmed(form.syllabusTopics)
      && n.isImportantForExam == (form.isImportantForExam == Some("true"))
      && n.fileURL == file.filename && n.fileSize == Some(file.size)
      && n.uploadedBy == uploader.id && n.createdAt == now
      && n.downloads == 0 && n.views == 0 && n.isOfflineAvailable
      && n.comments == [] && n.ratings == [] && n.averageRating == 0.0
  }

  /** Some field of the upload cannot be cast to its schema type: a number
      field that is not a number, or an enum field outside its enum. */
  predicate UploadCastFails(form: UploadForm, uploader: User)
  {
    || UploadSemester(form.semester, uploader.semester).None?
    || UploadUnit(form.syllabusUnit).None?
    || ParseDepartment(UploadDepartment(form.department, uploader.department)).None?
    || ParseExamTags(SplitTrimmed(form.examTags)).None?
  }

  /** The record `Note.create` builds from an upload, before validation:
      every field taken from the form, the uploader or a default. `None`
      when a field cannot be cast. */
  function NoteFromUpload(id: Id, form: UploadForm, uploader: User, file: UploadedFile, now: int)
    : (r: Option<Note>)
    requires Truthy(form.title) && Truthy(form.subject)
    ensures r.None? <==> UploadCastFails(form, uploader)
    ensures r.Some? ==> r.value.id == id && r.value.comments == [] && r.value.ratings == []
    ensures r.Some? ==> r.value.averageRating == 0.0
  {
    match (UploadSemester(form.semester, uploader.semester), UploadUnit(form.syllabusUnit),
           ParseDepartment(UploadDepartment(form.department, uploader.department)),
           ParseExamTags(SplitTrimmed(form.examTags)))
    case (Some(semester), Some(unit), Some(department), Some(examTags)) =>
      Some(Note(id, Trim(form.title.value), Trim(form.subject.value), department,
                semester, form.isImportantForExam == Some("true"),
                examTags, SplitTrimmed(form.syllabusTopics), unit,
                Trim(OrElse(form.category, DEFAULT_CATEGORY)), SplitTrimmed(form.tags),
                file.filename, Some(file.size), uploader.id, 0, 0, [], [], 0.0, true, now))
    case _ => None
  }

  /** Every field of a built note is the one the upload handler derives. */
  lemma NoteFromUploadDerived(id: Id, form: UploadForm, uploader: User, file: UploadedFile, now: int)
    requires Truthy(form.title) && Truthy(form.subject)
    ensures var r := NoteFromUpload(id, form, uploader, file, now);
      r.Some? ==> DerivedFromUpload(r.value, id, form, uploader, file, now)
  {
  }

  /** A teacher without a department or semester who fills in only the
      title and subject gets a note in department 'Other', semester 1 and
      category 'General', without tags. */
  lemma UploadDefaults(id: Id, title: string, subject: string, uploader: User,
                       file: UploadedFile, now: int)
    requires title != "" && subject != ""
    requires uploader.department.None? && uploader.semester.None?
    ensures
      var form := UploadForm(Some(title), Some(subject), None, None, None, None, None, None, None, None);
      var r := NoteFromUpload(id, form, uploader, file, now);
      && r.Some?
      && r.value.department == Other && r.value.semester == 1 && r.value.category == "General"
      && r.value.tags == [] && r.value.examTags == [] && !r.value.isImportantForExam
      && r.value.syllabusUnit.None?
  {
    var form := UploadForm(Some(title), Some(subject), None, None, None, None, None, None, None, None);
    assert UploadDepartment(form.department, uploader.department) == DepartmentName(Other);
    assert ParseDepartment(DepartmentName(Other)) == Some(Other);
    assert SplitTrimmed(form.examTags) == [];
    assert ParseExamTags([]) == Some([]);
    TrimUntouched(DEFAULT_CATEGORY);
    var r := NoteFromUpload(id, form, uploader, file, now);
    assert r.Some? && DerivedFromUpload(r.value, id, form, uploader, file, now);
  }

  /** The created record passes the schema. */
  predicate Accepted(created: Option<Note>)
  {
    created.Some? && ValidNote(created.value)
  }

  /** The collections an upload touches, and its reply. */
  datatype UploadOutcome = UploadOutcome(
    notes: map<Id, Note>, users: map<Id, User>, nextId: Id, reply: Reply<Note>)

  /** What a complete upload (file present, title and subject given) does
      with the record built from it: when the record passes the schema it
      is stored under the next id and the uploader earns 10 points;
      otherwise nothing is stored and the reply is a server error. */
  function Uploaded(notes: map<Id, Note>, users: map<Id, User>, nextId: Id, actor: Id,
                    created: Option<Note>): (o: UploadOutcome)
    requires actor in users
  {
    if Accepted(created) then
      UploadOutcome(notes[nextId := created.value],
                    users[actor := users[actor].(points := users[actor].points + POINTS_PER_UPLOAD)],
                    nextId + 1, Ok(CREATED, created.value))
    else UploadOutcome(notes, users, nextId, Err(SERVER_ERROR, VALIDATION_FAILED))
  }

  /** An accepted upload adds exactly one note, the one built, and the
      uploader's points grow by 10 while every other user stays as it
      was; a rejected one changes nothing. */
  lemma UploadedEffect(notes: map<Id, Note>, users: map<Id, User>, nextId: Id, actor: Id,
                       created: Option<Note>)
    requires actor in users && nextId !in notes
    ensures var o := Uploaded(notes, users, nextId, actor, created);
      && (o.reply.Ok? <==> Accepted(created))
      && (o.reply.Ok? ==> o.notes.Keys == notes.Keys + {nextId} && o.notes[nextId] == created.value
                          && o.reply == Ok(CREATED, created.value) && o.nextId == nextId + 1)
      && (o.reply.Ok? ==> o.users.Keys == users.Keys
                          && o.users[actor].points == users[actor].points + POINTS_PER_UPLOAD
                          && forall k :: k in users && k != actor ==> o.users[k] == users[k])
      && (o.reply.Err? ==> o.notes == notes && o.users == users && o.nextId == nextId
                           && o.reply.status == SERVER_ERROR)
      && |o.notes| == |notes| + (if o.reply.Ok? then 1 else 0)
  {
  }

  /** The note an accepted upload stores is the one derived from the form,
      and it names the uploader. */
  lemma UploadStoresDerivedNote(notes: map<Id, Note>, users: map<Id, User>, nextId: Id, actor: Id,
                                form: UploadForm, file: UploadedFile, now: int)
    requires actor in users && users[actor].id == actor
    requires Truthy(form.title) && Truthy(form.subject)
    ensures var o := Uploaded(notes, users, nextId, actor, NoteFromUpload(nextId, form, users[actor], file, now));
      o.reply.Ok? ==> nextId in o.notes && o.notes[nextId].uploadedBy == actor
                      && DerivedFromUpload(o.notes[nextId], nextId, form, users[actor], file, now)
  {
    NoteFromUploadDerived(nextId, form, users[actor], file, now);
  }

  /** POST /api/notes. The upload middleware has already stored the file
      when the handler runs, so the file stays in the upload directory
      whatever the handler decides. */
  method Upload(db: Db, actor: Id, form: UploadForm, file: Option<UploadedFile>, now: int)
    returns (reply: Reply<Note>)
    requires db.Valid() && actor in db.users
    modifies db
    ensures db.Valid()
    ensures db.announcements == old(db.announcements)
    ensures db.files == old(db.files) + (if file.Some? then {file.value.filename} else {})
    ensures file.None? ==>
      && reply == Err(BAD_REQUEST, "No file uploaded")
      && db.notes == old(db.notes) && db.users == old(db.users) && db.nextId == old(db.nextId)
    ensures file.Some? && !(Truthy(form.title) && Truthy(form.subject)) ==>
      && reply == Err(BAD_REQUEST, "Title and subject required")
      && db.notes == old(db.notes) && db.users == old(db.users) && db.nextId == old(db.nextId)
    ensures file.Some? && Truthy(form.title) && Truthy(form.subject) ==>
      UploadOutcome(db.notes, db.users, db.nextId, reply)
        == Uploaded(old(db.notes), old(db.users), old(db.nextId), actor,
                    NoteFromUpload(old(db.nextId), form, old(db.users)[actor], file.value, now))
  {
    if file.None? {
      return Err(BAD_REQUEST, "No file uploaded");
    }
    db.files := db.files + {file.value.filename};
    if !(Truthy(form.title) && Truthy(form.subject)) {
      return Err(BAD_REQUEST, "Title and subject required");
    }
    var created := NoteFromUpload(db.nextId, form, db.users[actor], file.value, now);
    reply := StoreUpload(db, actor, created);
  }

  /** The part of the upload after the record is built: validate, store,
      award the points. */
  method StoreUpload(db: Db, actor: Id, created: Option<Note>) returns (reply: Reply<Note>)
    requires db.Valid() && actor in db.users
    requires created.Some? ==> created.value.id == db.nextId && created.value.comments == []
    requires created.Some? ==> created.value.ratings == [] && created.value.averageRating == 0.0
    modifies db
    ensures db.Valid()
    ensures db.announcements == old(db.announcements) && db.files == old(db.files)
    ensures UploadOutcome(db.notes, db.users, db.nextId, reply)
      == Uploaded(old(db.notes), old(db.users), old(db.nextId), actor, created)
  {
    if !Accepted(created) {
      return Err(SERVER_ERROR, VALIDATION_FAILED);
    }
    FreshNoteInvariant(created.value);
    db.CreateNote(created.value);
    db.AwardPoints(actor, POINTS_PER_UPLOAD);
    reply := Ok(CREATED, created.value);
  }

  /* ---------------------------------------------------------------- */
  /* getAllNotes                                                        */

  /** The query string of GET /api/notes. */
  datatype ListQuery = ListQuery(
    department: Option<string>,
    semester: Option<string>,
    isImportantForExam: Option<string>,
    subject: Option<string>)

  /** The semester filter: absent unless the parameter is truthy. */
  function SemesterFilter(q: ListQuery): Option<int>
  {
    if Truthy(q.semester) then ParseInt(q.semester.value) else None
  }

  /** The semester parameter is truthy but not a number: the cast fails. */
  predicate SemesterCastFails(q: ListQuery)
  {
    Truthy(q.semester) && ParseInt(q.semester.value).None?
  }

  /** A note passes every filter the query sets; the subject filter is a
      case-insensitive substring match. */
  predicate MatchesQuery(n: Note, q: ListQuery)
  {
    && (Truthy(q.department) ==> DepartmentName(n.department) == q.department.value)
    && (SemesterFilter(q).Some? ==> n.semester == SemesterFilter(q).value)
    && (q.isImportantForExam == Some("true") ==> n.isImportantForExam)
    && (Truthy(q.subject) ==> ContainsIgnoreCase(n.subject, q.subject.value))
  }

  function CreatedKey(n: Note): SortKey
  {
    SortKey(n.createdAt, 0)
  }

  /** GET /api/notes: the matching notes, newest first. */
  function GetAllNotes(notes: map<Id, Note>, q: ListQuery): (r: Reply<seq<Note>>)
    ensures r.Err? <==> SemesterCastFails(q)
    ensures r.Err? ==> r.status == SERVER_ERROR
    ensures r.Ok? ==> r.status == OK && SortedDesc(r.value, CreatedKey)
    ensures r.Ok? ==> multiset(r.value) == multiset(Filter(Records(notes), n => MatchesQuery(n, q)))
  {
    if SemesterCastFails(q) then Err(SERVER_ERROR, "Cast to Number failed")
    else Ok(OK, SortDesc(Filter(Records(notes), n => MatchesQuery(n, q)), CreatedKey))
  }

  /** The listing holds exactly the stored notes that match the query. */
  lemma GetAllNotesExact(notes: map<Id, Note>, q: ListQuery)
    requires !SemesterCastFails(q)
    ensures forall n :: n in GetAllNotes(notes, q).value <==> n in notes.Values && MatchesQuery(n, q)
  {
    SortedFilterExact(notes, n => MatchesQuery(n, q), CreatedKey);
  }

  /* ---------------------------------------------------------------- */
  /* getNoteById, downloadNote, deleteNote                              */

  /** GET /api/notes/:id: the note, whose view count the read increments. */
  method GetNoteById(db: Db, id: Id) returns (reply: Reply<Note>)
    requires db.Valid()
    modifies db
    ensures db.Valid()
    ensures db.users == old(db.users) && db.announcements == old(db.announcements)
    ensures db.files == old(db.files) && db.nextId == old(db.nextId)
    ensures id !in old(db.notes) ==> reply == Err(NOT_FOUND, "Note not found") && db.notes == old(db.notes)
    ensures id in old(db.notes) ==>
      var n := old(db.notes)[id];
      && db.notes == old(db.notes)[id := n.(views := n.views + 1)]
      && reply == Ok(OK, db.notes[id])
  {
    if id !in db.notes {
      return Err(NOT_FOUND, "Note not found");
    }
    var n := db.notes[id];
    var n' := n.(views := n.views + 1);
    db.SaveNote(n');
    reply := Ok(OK, n');
  }

  /** GET /api/notes/:id/download: counts the download, then sends the
      file under the note's title. The download is counted even when the
      file is missing from the upload directory. */
  method DownloadNote(db: Db, id: Id) returns (reply: Reply<string>)
    requires db.Valid()
    modifies db
    ensures db.Valid()
    ensures db.users == old(db.users) && db.announcements == old(db.announcements)
    ensures db.files == old(db.files) && db.nextId == old(db.nextId)
    ensures id !in old(db.notes) ==> reply == Err(NOT_FOUND, "Note not found") && db.notes == old(db.notes)
    ensures id in old(db.notes) ==>
      var n := old(db.notes)[id];
      && db.notes == old(db.notes)[id := n.(downloads := n.downloads + 1)]
      && (n.fileURL in db.files ==> reply == Ok(OK, DownloadName(n)))
      && (n.fileURL !in db.files ==> reply == Err(NOT_FOUND, "File not found"))
  {
    if id !in db.notes {
      return Err(NOT_FOUND, "Note not found");
    }
    var n := db.notes[id];
    var n' := n.(downloads := n.downloads + 1);
    db.SaveNote(n');
    if n.fileURL !in db.files {
      return Err(NOT_FOUND, "File not found");
    }
    reply := Ok(OK, DownloadName(n));
  }

  /** DELETE /api/notes/:id: the stored file and the note are removed. */
  method DeleteNote(db: Db, id: Id) returns (reply: Reply<string>)
    requires db.Valid()
    modifies db
    ensures db.Valid()
    ensures db.users == old(db.users) && db.announcements == old(db.announcements)
    ensures db.nextId == old(db.nextId)
    ensures id !in old(db.notes) ==>
      reply == Err(NOT_FOUND, "Note not found") && db.notes == old(db.notes) && db.files == old(db.files)
    ensures id in old(db.notes) ==>
      && reply == Ok(OK, "Note deleted")
      && db.notes == old(db.notes) - {id}
      && db.files == old(db.files) - {old(db.notes)[id].fileURL}
  {
    if id !in db.notes {
      return Err(NOT_FOUND, "Note not found");
    }
    db.files := db.files - {db.notes[id].fileURL};
    db.notes := db.notes - {id};
    reply := Ok(OK, "Note deleted");
  }

  /* ---------------------------------------------------------------- */
  /* getStats                                                           */

  /** One group of the `$group` by subject. */
  datatype SubjectCount = SubjectCount(subject: string, count: nat)

  datatype Stats = Stats(
    totalNotes: nat,
    totalDownloads: int,
    totalViews: int,
    topNotes: seq<Note>,
    notesBySubject: seq<SubjectCount>)

  function DownloadsOf(n: Note): int { n.downloads }
  function ViewsOf(n: Note): int { n.views }
  function DownloadsKey(n: Note): SortKey { SortKey(n.downloads, 0) }
  function CountOf(e: SubjectCount): int { e.count }
  function CountKey(e: SubjectCount): SortKey { SortKey(e.count, 0) }

  function Subjects(ns: seq<Note>): (r: seq<string>)
    ensures |r| == |ns| && forall i :: 0 <= i < |ns| ==> r[i] == ns[i].subject
  {
    seq(|ns|, i requires 0 <= i < |ns| => ns[i].subject)
  }

  /** The count of the group for `y`, 0 when there is none. */
  function CountFor(t: seq<SubjectCount>, y: string): nat
  {
    if t == [] then 0 else if t[0].subject == y then t[0].count else CountFor(t[1..], y)
  }

  ghost predicate DistinctSubjects(t: seq<SubjectCount>)
  {
    forall i, j :: 0 <= i < j < |t| ==> t[i].subject != t[j].subject
  }

  ghost predicate PositiveCounts(t: seq<SubjectCount>)
  {
    forall i :: 0 <= i < |t| ==> t[i].count > 0
  }

  /** Adds one document with subject `x` to the groups. */
  function Bump(t: seq<SubjectCount>, x: string): seq<SubjectCount>
  {
    if t == [] then [SubjectCount(x, 1)]
    else if t[0].subject == x then [t[0].(count := t[0].count + 1)] + t[1..]
    else [t[0]] + Bump(t[1..], x)
  }

  /** The groups of a sequence of subjects. */
  function Tally(s: seq<string>): seq<SubjectCount>
  {
    if s == [] then [] else Bump(Tally(s[1..]), s[0])
  }

  /** The entry of a group in distinct groups holds the group's count. */
  lemma {:induction false} CountForEntry(t: seq<SubjectCount>, i: nat)
    requires DistinctSubjects(t) && i < |t|
    ensures CountFor(t, t[i].subject) == t[i].count
  {
    if i > 0 {
      assert t[0].subject != t[i].subject;
      CountForEntry(t[1..], i - 1);
    }
  }

  /** A group with a positive count has an entry. */
  lemma {:induction false} CountForPresent(t: seq<SubjectCount>, y: string)
    requires CountFor(t, y) > 0
    ensures exists i :: 0 <= i < |t| && t[i].subject == y
  {
    if t[0].subject != y {
      CountForPresent(t[1..], y);
      var i :| 0 <= i < |t[1..]| && t[1..][i].subject == y;
      assert t[i + 1].subject == y;
    }
  }

  /** Every group after a bump is the bumped subject's or was there before. */
  lemma {:induction false} BumpSubjects(t: seq<SubjectCount>, x: string)
    ensures forall i :: 0 <= i < |Bump(t, x)| ==>
              Bump(t, x)[i].subject == x || Bump(t, x)[i].subject in SubjectsOf(t)
  {
    if t != [] && t[0].subject != x {
      BumpSubjects(t[1..], x);
      var b := Bump(t[1..], x);
      forall i | 0 <= i < |b| && b[i].subject != x ensures b[i].subject in SubjectsOf(t) {
        var j :| 0 <= j < |t[1..]| && t[1..][j].subject == b[i].subject;
        assert t[j + 1] == t[1..][j];
      }
    }
  }

  /** A bump keeps the groups distinct and their counts positive. */
  lemma {:induction false} BumpDistinct(t: seq<SubjectCount>, x: string)
    requires DistinctSubjects(t) && PositiveCounts(t)
    ensures DistinctSubjects(Bump(t, x)) && PositiveCounts(Bump(t, x))
  {
    if t != [] && t[0].subject != x {
      BumpDistinct(t[1..], x);
      BumpSubjects(t[1..], x);
      var b := Bump(t[1..], x);
      assert Bump(t, x) == [t[0]] + b;
      forall i | 0 <= i < |b| ensures b[i].subject != t[0].subject {
        var s := b[i].subject;
        if s != x {
          var j :| 0 <= j < |t[1..]| && t[1..][j].subject == s;
          assert t[j + 1].subject == s;
        }
      }
    } else if t != [] {
      assert Bump(t, x)[1..] == t[1..];
    }
  }

  /** A bump adds one to the count of its subject and nothing else. */
  lemma {:induction false} BumpCount(t: seq<SubjectCount>, x: string, y: string)
    ensures CountFor(Bump(t, x), y) == CountFor(t, y) + (if y == x then 1 else 0)
  {
    if t != [] && t[0].subject != x {
      BumpCount(t[1..], x, y);
    }
  }

  /** A bump adds one to the total. */
  lemma {:induction false} BumpSum(t: seq<SubjectCount>, x: string)
    ensures SumBy(Bump(t, x), CountOf) == SumBy(t, CountOf) + 1
  {
    if t != [] && t[0].subject != x {
      BumpSum(t[1..], x);
    } else if t != [] {
      assert Bump(t, x)[1..] == t[1..];
    }
  }

  function SubjectsOf(t: seq<SubjectCount>): (r: set<string>)
    ensures forall i :: 0 <= i < |t| ==> t[i].subject in r
    ensures forall y :: y in r ==> exists i :: 0 <= i < |t| && t[i].subject == y
  {
    set i | 0 <= i < |t| :: t[i].subject
  }

  /** The groups of `s`: one per subject, each counting the occurrences of
      its subject, together counting every element. */
  lemma {:induction false} TallySpec(s: seq<string>)
    ensures DistinctSubjects(Tally(s)) && PositiveCounts(Tally(s))
    ensures forall y :: CountFor(Tally(s), y) == Count(s, y)
    ensures SumBy(Tally(s), CountOf) == |s|
  {
    if s != [] {
      TallySpec(s[1..]);
      var t := Tally(s[1..]);
      BumpDistinct(t, s[0]);
      BumpSum(t, s[0]);
      forall y ensures CountFor(Tally(s), y) == Count(s, y) {
        BumpCount(t, s[0], y);
      }
    }
  }

  /** The five most downloaded notes, most downloaded first. */
  function TopNotes(notes: map<Id, Note>): (r: seq<Note>)
    ensures |r| == if |notes| <= TOP_NOTES then |notes| else TOP_NOTES
    ensures SortedDesc(r, DownloadsKey)
  {
    var ranked := SortDesc(Records(notes), DownloadsKey);
    TakeSorted(ranked, DownloadsKey, TOP_NOTES);
    Take(ranked, TOP_NOTES)
  }

  /** The subject groups, largest first. */
  function SubjectGroups(notes: map<Id, Note>): (r: seq<SubjectCount>)
    ensures SortedDesc(r, CountKey)
  {
    SortDesc(Tally(Subjects(Records(notes))), CountKey)
  }

  /** GET /api/notes/stats. */
  function GetStats(notes: map<Id, Note>): (st: Stats)
    ensures st.totalNotes == |notes|
    ensures st.topNotes == TopNotes(notes) && st.notesBySubject == SubjectGroups(notes)
  {
    var all := Records(notes);
    Stats(|notes|, SumBy(all, DownloadsOf), SumBy(all, ViewsOf), TopNotes(notes), SubjectGroups(notes))
  }

  /** The totals add up the downloads and views of every stored note. */
  lemma StatsTotals(notes: map<Id, Note>, order: seq<Note>)
    requires multiset(order) == multiset(Records(notes))
    ensures GetStats(notes).totalDownloads == SumBy(order, DownloadsOf)
    ensures GetStats(notes).totalViews == SumBy(order, ViewsOf)
  {
    SumByPermutation(order, Records(notes), DownloadsOf);
    SumByPermutation(order, Records(notes), ViewsOf);
  }

  /** The top notes are stored notes, and no note left out has more
      downloads than any note in the top list. */
  lemma TopNotesAreMostDownloaded(notes: map<Id, Note>)
    ensures multiset(TopNotes(notes)) <= multiset(Records(notes))
    ensures forall x, i :: (x in multiset(Records(notes)) - multiset(TopNotes(notes))
              && 0 <= i < |TopNotes(notes)|) ==> x.downloads <= TopNotes(notes)[i].downloads
  {
    var all := Records(notes);
    var top := TopNotes(notes);
    assert top == Take(SortDesc(all, DownloadsKey), TOP_NOTES);
    TopOfSortDesc(all, DownloadsKey, TOP_NOTES);
    forall x: Note, i | x in multiset(all) - multiset(top) && 0 <= i < |top|
      ensures x.downloads <= top[i].downloads
    {
      assert KeyGe(DownloadsKey(top[i]), DownloadsKey(x));
    }
  }

  /** Each subject group counts exactly the notes with that subject, every
      subject of a stored note has a group, and the groups add up to the
      total number of notes. */
  lemma SubjectGroupsExact(notes: map<Id, Note>)
    ensures var g := SubjectGroups(notes);
      && (forall i :: 0 <= i < |g| ==>
            g[i].count == Count(Subjects(Records(notes)), g[i].subject) && g[i].count > 0)
      && (forall k :: k in notes ==> exists i :: 0 <= i < |g| && g[i].subject == notes[k].subject)
      && SumBy(g, CountOf) == |notes|
  {
    var all := Records(notes);
    var subjects := Subjects(all);
    var groups := Tally(subjects);
    var sorted := SubjectGroups(notes);
    TallySpec(subjects);
    SumByPermutation(sorted, groups, CountOf);
    forall i | 0 <= i < |sorted|
      ensures sorted[i].count == Count(subjects, sorted[i].subject) && sorted[i].count > 0
    {
      assert sorted[i] in multiset(groups);
      var j :| 0 <= j < |groups| && groups[j] == sorted[i];
      CountForEntry(groups, j);
    }
    forall k | k in notes
      ensures exists i :: 0 <= i < |sorted| && sorted[i].subject == notes[k].subject
    {
      RecordsCover(notes, k);
      var m :| 0 <= m < |all| && all[m] == notes[k];
      assert subjects[m] == notes[k].subject;
      CountPositive(subjects, m);
      CountForPresent(groups, notes[k].subject);
      var j :| 0 <= j < |groups| && groups[j].subject == notes[k].subject;
      assert groups[j] in multiset(sorted);
    }
  }

  lemma {:induction false} CountPositive(s: seq<string>, m: nat)
    requires m < |s|
    ensures Count(s, s[m]) > 0
  {
    if m > 0 {
      CountPositive(s[1..], m - 1);
    }
  }
}
