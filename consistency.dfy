/** How the client and the server fit together: the controls the client
    shows against the routes' gates, and the body the upload form sends
    against what the server's upload handler reads from it. */
module Consistency {
  import opened Common
  import opened Strings
  import opened UserSchema
  import opened NoteSchema
  import NC = NotesController
  import R = Routes
  import Card = NoteCard
  import Nav = Layout
  import Form = UploadNotes

  /* ---------------------------------------------------------------- */
  /* controls and gates                                                */

  /** The card shows its delete control to exactly the viewers the notes
      router lets through to the delete handler. */
  lemma CardDeleteMatchesRoute(viewer: Card.Viewer, id: string)
    requires id != ""
    ensures Card.CanDelete(Some(viewer)) <==>
      R.Dispatch(R.NOTES_ROUTES, R.Delete, [id], Some(viewer.role), false).Handled?
  {
    R.RemoveNoteGate(id, Some(viewer.role), false);
  }

  /** The sidebar links to the upload page for exactly the viewers the
      notes router lets through to the upload handler. */
  lemma UploadLinkMatchesRoute(viewer: Option<Role>)
    ensures Nav.NAV_ITEMS[1] in Nav.VisibleItems(viewer) <==>
      R.Dispatch(R.NOTES_ROUTES, R.Post, [], viewer, true).Handled?
  {
    Nav.StaffOnlyItems(viewer);
    R.UploadGate(viewer, true);
  }

  /** Where the card shows a comment's Delete button to nobody signed in,
      the router turns the request away before the handler. */
  lemma OrphanCommentDeleteRefused(id: string, commentId: string)
    requires id != "" && commentId != ""
    ensures Card.ShowsCommentDelete(None, None)
    ensures R.Dispatch(R.NOTES_ROUTES, R.Delete, [id, "comments", commentId], None, false)
              == R.Refused(R.NotAuthenticated, false)
  {
    Card.AbsentIdsShowDelete();
    R.RemoveCommentGate(id, commentId, None, false);
  }

  /* ---------------------------------------------------------------- */
  /* the upload body as the server reads it                            */

  /** The text the body carries under a key, as the server's body parser
      hands it to the handler. */
  function TextOf(p: Form.FormData, k: Form.Key): (r: Option<string>)
    ensures r.Some? <==> k in p && p[k].Text?
    ensures r.Some? ==> p[k] == Form.Text(r.value)
  {
    if k in p && p[k].Text? then Some(p[k].text) else None
  }

  /** The text fields of an upload request built from the client's body;
      the client sends no category, tags or syllabus topics. */
  function ServerForm(p: Form.FormData): (f: NC.UploadForm)
    ensures f.title == TextOf(p, Form.TitleKey) && f.subject == TextOf(p, Form.SubjectKey)
    ensures f.category.None? && f.tags.None? && f.syllabusTopics.None?
    ensures f.department == TextOf(p, Form.DepartmentKey)
    ensures f.semester == TextOf(p, Form.SemesterKey)
    ensures f.isImportantForExam == TextOf(p, Form.ImportantKey)
    ensures f.examTags == TextOf(p, Form.ExamTagsKey)
    ensures f.syllabusUnit == TextOf(p, Form.SyllabusUnitKey)
  {
    NC.UploadForm(TextOf(p, Form.TitleKey), TextOf(p, Form.SubjectKey), None, None,
                  TextOf(p, Form.DepartmentKey), TextOf(p, Form.SemesterKey),
                  TextOf(p, Form.ImportantKey), TextOf(p, Form.ExamTagsKey), None,
                  TextOf(p, Form.SyllabusUnitKey))
  }

  /** The exam tags the form offers have no commas and no surrounding
      white space, and each is the name of a tag of the schema. */
  lemma ExamTagOption(t: string)
    requires t in Form.EXAM_TAG_OPTIONS
    ensures ',' !in t && Trim(t) == t
    ensures ParseExamTag(t).Some? && ExamTagName(ParseExamTag(t).value) == t
  {
    TrimUntouched(t);
  }

  /** The exam tags, sent separated by commas, reach the note as they were
      selected. */
  lemma ExamTagsTextAccepted(tags: seq<string>)
    requires tags != [] && forall i :: 0 <= i < |tags| ==> tags[i] in Form.EXAM_TAG_OPTIONS
    ensures var r := ParseExamTags(SplitTrimmed(Some(Form.ExamTagsText(tags))));
      && r.Some? && |r.value| == |tags|
      && forall i :: 0 <= i < |tags| ==> ExamTagName(r.value[i]) == tags[i]
  {
    forall i | 0 <= i < |tags| ensures ',' !in tags[i] && Trim(tags[i]) == tags[i] {
      ExamTagOption(tags[i]);
    }
    SplitJoin(tags, ',');
    var text := Form.ExamTagsText(tags);
    assert Split("", ',') == [""];
    assert tags[0] != "" by {
      assert tags[0] in Form.EXAM_TAG_OPTIONS;
    }
    var pieces := SplitTrimmed(Some(text));
    assert pieces == tags;
    forall i | 0 <= i < |tags| ensures ParseExamTag(pieces[i]).Some? {
      ExamTagOption(tags[i]);
    }
  }

  /** A form filled in the way the page offers (a department and a
      semester from the choices, exam tags from the options) builds a note
      on the server with the department, semester, exam flag and exam tags
      that were chosen. */
  lemma SubmittedFormBuildsNote(title: string, subject: string, department: Department,
                                semester: nat, isImportantForExam: bool, examTags: seq<string>,
                                file: Form.FileRef, id: Id, uploader: User,
                                stored: NC.UploadedFile, now: int)
    requires title != "" && subject != ""
    requires 1 <= semester <= 8
    requires forall i :: 0 <= i < |examTags| ==> examTags[i] in Form.EXAM_TAG_OPTIONS
    ensures var p := Form.Payload(title, subject, DepartmentName(department), NatToString(semester),
                                  isImportantForExam, examTags, "", file);
      var form := ServerForm(p);
      && Truthy(form.title) && Truthy(form.subject)
      && var n := NC.NoteFromUpload(id, form, uploader, stored, now);
      && n.Some?
      && n.value.department == department && n.value.semester == semester
      && n.value.isImportantForExam == isImportantForExam
      && |n.value.examTags| == |examTags|
      && forall i :: 0 <= i < |examTags| ==> ExamTagName(n.value.examTags[i]) == examTags[i]
  {
    var p := Form.Payload(title, subject, DepartmentName(department), NatToString(semester),
                          isImportantForExam, examTags, "", file);
    Form.PayloadFields(title, subject, DepartmentName(department), NatToString(semester),
                       isImportantForExam, examTags, "", file);
    var form := ServerForm(p);
    assert form.semester == Some(NatToString(semester));
    ParseIntOfNatToString(semester);
    assert form.department == Some(DepartmentName(department));
    assert DepartmentName(department) != "" by {
      match department
      case CSE => case ECE => case Mechanical => case Civil => case IT =>
      case EEE => case Chemical => case Biotechnology => case Other =>
    }
    assert NC.UploadDepartment(form.department, uploader.department) == DepartmentName(department);
    assert form.syllabusUnit.None?;
    if examTags != [] {
      ExamTagsTextAccepted(examTags);
    } else {
      assert form.examTags.None?;
      assert SplitTrimmed(form.examTags) == [];
    }
    assert form.isImportantForExam == Some(Form.BoolText(isImportantForExam));
    NC.NoteFromUploadDerived(id, form, uploader, stored, now);
  }

  /* ---------------------------------------------------------------- */
  /* the exam tags as the page sends them                              */

  /** The items of a JSON array of strings, for strings that need no
      escapes. */
  function JsonItems(tags: seq<string>): string
  {
    if tags == [] then ""
    else if |tags| == 1 then "\"" + tags[0] + "\""
    else "\"" + tags[0] + "\"," + JsonItems(tags[1..])
  }

  /** `JSON.stringify(examTags)`. */
  function JsonExamTags(tags: seq<string>): (r: string)
    ensures r != [] && r[0] == '['
  {
    "[" + JsonItems(tags) + "]"
  }

  /** The first piece of a split starts with the first character, when
      that is not the separator. */
  lemma SplitHead(s: string, sep: char)
    requires s != [] && s[0] != sep
    ensures Split(s, sep)[0] != [] && Split(s, sep)[0][0] == s[0]
  {
  }

  /** Trimming keeps a first character that is not white space. */
  lemma TrimHead(x: string)
    requires x != [] && !IsSpace(x[0])
    ensures Trim(x) != [] && Trim(x)[0] == x[0]
  {
    assert TrimStart(x) == x;
    assert !IsBlank(x);
  }

  /** No exam tag's name starts with a bracket. */
  lemma BracketIsNoTag(y: string)
    requires y != [] && y[0] == '['
    ensures ParseExamTag(y).None?
  {
    forall t: ExamTag ensures ExamTagName(t) != y {
      assert ExamTagName(t)[0] != '[';
    }
  }

  /** As the page sends them, the server never accepts selected exam
      tags: it splits the JSON text at commas, and the first piece keeps
      the opening bracket, which no tag name has. The upload then fails the
      cast and the server answers with an error. */
  lemma JsonExamTagsRejected(tags: seq<string>, form: NC.UploadForm, uploader: User)
    requires tags != [] && form.examTags == Some(JsonExamTags(tags))
    ensures ParseExamTags(SplitTrimmed(form.examTags)).None?
    ensures NC.UploadCastFails(form, uploader)
  {
    var s := JsonExamTags(tags);
    SplitHead(s, ',');
    var first := Split(s, ',')[0];
    TrimHead(first);
    var pieces := SplitTrimmed(form.examTags);
    assert pieces[0] == Trim(first);
    BracketIsNoTag(pieces[0]);
  }

  /** The smallest case: one tag picked. */
  lemma OneJsonTagRejected(form: NC.UploadForm, uploader: User)
    requires form.examTags == Some(JsonExamTags(["midterm"]))
    ensures NC.UploadCastFails(form, uploader)
  {
    JsonExamTagsRejected(["midterm"], form, uploader);
  }

  /** The body the page as written builds (UploadNotes.jsx:36-48): the
      corrected body with the exam tags replaced by `JSON.stringify`. */
  function PayloadAsWritten(title: string, subject: string, department: string, semester: string,
                            isImportantForExam: bool, examTags: seq<string>, syllabusUnit: string,
                            file: Form.FileRef): (r: Form.FormData)
    ensures examTags != [] ==> Form.ExamTagsKey in r && r[Form.ExamTagsKey] == Form.Text(JsonExamTags(examTags))
    ensures var p := Form.Payload(title, subject, department, semester, isImportantForExam,
                                  examTags, syllabusUnit, file);
      forall k :: k != Form.ExamTagsKey ==> (k in r <==> k in p) && (k in r ==> r[k] == p[k])
  {
    var p := Form.Payload(title, subject, department, semester, isImportantForExam,
                          examTags, syllabusUnit, file);
    if examTags != [] then p[Form.ExamTagsKey := Form.Text(JsonExamTags(examTags))] else p
  }

  /** Whatever else the page's form holds, an upload with at least one
      exam tag selected, sent as the page as written sends it, fails the
      server's cast: past the title and subject check no note is built,
      and the server answers with 500. */
  lemma AsWrittenUploadRejected(title: string, subject: string, department: string, semester: string,
                                isImportantForExam: bool, examTags: seq<string>, syllabusUnit: string,
                                file: Form.FileRef, id: Id, uploader: User,
                                stored: NC.UploadedFile, now: int)
    requires examTags != []
    ensures var form := ServerForm(PayloadAsWritten(title, subject, department, semester,
                                                    isImportantForExam, examTags, syllabusUnit, file));
      && NC.UploadCastFails(form, uploader)
      && (Truthy(form.title) && Truthy(form.subject) ==>
            NC.NoteFromUpload(id, form, uploader, stored, now).None?)
  {
    var form := ServerForm(PayloadAsWritten(title, subject, department, semester,
                                            isImportantForExam, examTags, syllabusUnit, file));
    assert form.examTags == Some(JsonExamTags(examTags));
    JsonExamTagsRejected(examTags, form, uploader);
  }
}
