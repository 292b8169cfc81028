/** The client's upload form: the exam-tag toggle, and the submit handler
    with its guards, the multipart body it sends and the reset after a
    successful upload. */
module UploadNotes {
  import opened Common
  import opened Strings

  const EXAM_TAG_OPTIONS: seq<string> := ["midterm", "final", "quick-revision", "important"]

  /* ---------------------------------------------------------------- */
  /* toggleExamTag                                                      */

  /** A selected tag is dropped, every copy of it; another one is added
      at the end. */
  function ToggleExamTag(prev: seq<string>, tag: string): (r: seq<string>)
    ensures tag in prev ==> tag !in r && forall t :: t != tag ==> Count(r, t) == Count(prev, t)
    ensures tag in prev ==> IsSubseq(r, prev)
    ensures tag !in prev ==> |r| == |prev| + 1 && r[..|prev|] == prev && r[|prev|] == tag
  {
    if tag in prev then
      var r := Filter(prev, (t: string) => t != tag);
      forall t | t != tag ensures Count(r, t) == Count(prev, t) {
        FilterCount(prev, (u: string) => u != tag, t);
      }
      FilterIsSubseq(prev, (t: string) => t != tag);
      r
    else prev + [tag]
  }

  /** Toggling a tag that is not selected twice gives back the selection. */
  lemma ToggleTwiceAbsent(prev: seq<string>, tag: string)
    requires tag !in prev
    ensures ToggleExamTag(ToggleExamTag(prev, tag), tag) == prev
  {
    var once := prev + [tag];
    assert tag in once;
    FilterAppend(prev, [tag], (t: string) => t != tag);
    FilterAll(prev, (t: string) => t != tag);
  }

  /** Toggling a selected tag twice moves it to the end, once. */
  lemma ToggleTwicePresent(prev: seq<string>, tag: string)
    requires tag in prev
    ensures ToggleExamTag(ToggleExamTag(prev, tag), tag) == Filter(prev, (t: string) => t != tag) + [tag]
  {
  }

  /** With distinct tags, toggling keeps them distinct. */
  lemma ToggleKeepsDistinct(prev: seq<string>, tag: string)
    requires NoDup(prev)
    ensures NoDup(ToggleExamTag(prev, tag))
  {
    var r := ToggleExamTag(prev, tag);
    if tag in prev {
      forall i, j | 0 <= i < j < |r| ensures r[i] != r[j] {
        if r[i] == r[j] {
          CountAtLeastTwo(r, i, j);
          CountDistinct(prev, r[i]);
        }
      }
    }
  }

  /** Two places holding the same element count it twice. */
  lemma {:induction false} CountAtLeastTwo(s: seq<string>, i: nat, j: nat)
    requires i < j < |s| && s[i] == s[j]
    ensures Count(s, s[i]) >= 2
  {
    if i > 0 {
      CountAtLeastTwo(s[1..], i - 1, j - 1);
    } else {
      assert s[1..][j - 1] == s[i];
      CountAtLeastOne(s[1..], j - 1);
    }
  }

  lemma {:induction false} CountAtLeastOne(s: seq<string>, i: nat)
    requires i < |s|
    ensures Count(s, s[i]) >= 1
  {
    if i > 0 {
      CountAtLeastOne(s[1..], i - 1);
    }
  }

  /* ---------------------------------------------------------------- */
  /* the multipart body                                                 */

  /** The selected file, as the browser hands it over. */
  datatype FileRef = FileRef(name: string, size: nat)

  datatype Part = Text(text: string) | Attachment(file: FileRef)

  /** The keys the form appends under. */
  datatype Key = TitleKey | SubjectKey | DepartmentKey | SemesterKey | ImportantKey
               | ExamTagsKey | SyllabusUnitKey | FileKey

  /** The text of each key. */
  function KeyName(k: Key): string
  {
    match k
    case TitleKey => "title"
    case SubjectKey => "subject"
    case DepartmentKey => "department"
    case SemesterKey => "semester"
    case ImportantKey => "isImportantForExam"
    case ExamTagsKey => "examTags"
    case SyllabusUnitKey => "syllabusUnit"
    case FileKey => "file"
  }

  /** The body of the request: the value appended under each key. Every
      key is appended at most once, so the body is a map. */
  type FormData = map<Key, Part>

  /** `String(b)` of a boolean. */
  function BoolText(b: bool): string
  {
    if b then "true" else "false"
  }

  /** The exam tags as the server's upload handler reads them: one string
      with the tags separated by commas. The page itself sends the JSON
      array of the tags, which the server splits at commas into pieces
      that are no tag names (`Consistency.JsonExamTagsRejected`); this
      model sends the form the server reads. */
  function ExamTagsText(tags: seq<string>): string
    requires tags != []
  {
    Join(tags, ',')
  }

  /** The body `handleSubmit` builds: the five fields always sent, the
      exam tags when some are selected, the syllabus unit when one is given,
      and the file. */
  function Payload(title: string, subject: string, department: string, semester: string,
                   isImportantForExam: bool, examTags: seq<string>, syllabusUnit: string,
                   file: FileRef): (r: FormData)
  {
    var always := map[TitleKey := Text(title), SubjectKey := Text(subject),
                      DepartmentKey := Text(department), SemesterKey := Text(semester),
                      ImportantKey := Text(BoolText(isImportantForExam))];
    var withTags := if examTags != [] then always[ExamTagsKey := Text(ExamTagsText(examTags))] else always;
    var withUnit := if syllabusUnit != "" then withTags[SyllabusUnitKey := Text(syllabusUnit)] else withTags;
    withUnit[FileKey := Attachment(file)]
  }

  /** What the body carries: the five fields as they are in the form, the
      exam tags exactly when some are selected, the syllabus unit exactly
      when set, and the file. */
  lemma PayloadFields(title: string, subject: string, department: string, semester: string,
                      isImportantForExam: bool, examTags: seq<string>, syllabusUnit: string,
                      file: FileRef)
    ensures var p := Payload(title, subject, department, semester, isImportantForExam,
                             examTags, syllabusUnit, file);
      && TitleKey in p && p[TitleKey] == Text(title)
      && SubjectKey in p && p[SubjectKey] == Text(subject)
      && DepartmentKey in p && p[DepartmentKey] == Text(department)
      && SemesterKey in p && p[SemesterKey] == Text(semester)
      && ImportantKey in p && p[ImportantKey] == Text(BoolText(isImportantForExam))
      && (ExamTagsKey in p <==> examTags != [])
      && (examTags != [] ==> p[ExamTagsKey] == Text(ExamTagsText(examTags)))
      && (SyllabusUnitKey in p <==> syllabusUnit != "")
      && (syllabusUnit != "" ==> p[SyllabusUnitKey] == Text(syllabusUnit))
      && FileKey in p && p[FileKey] == Attachment(file)
  {
  }

  /* ---------------------------------------------------------------- */
  /* handleSubmit                                                       */

  const NO_FILE: string := "Please select a file (PDF, DOC, or DOCX)"
  const NO_PLACE: string := "Please select department and semester"
  const UPLOADED: string := "Note uploaded successfully"
  const UPLOAD_FAILED: string := "Upload failed"

  /** The state of the page. */
  class UploadForm {
    var title: string
    var subject: string
    var department: string
    var semester: string
    var isImportantForExam: bool
    var examTags: seq<string>
    var syllabusUnit: string
    var file: Option<FileRef>
    var loading: bool
    var dragActive: bool

    /** Every field at its initial value. */
    predicate Initial()
      reads this
    {
      && title == "" && subject == "" && department == "" && semester == ""
      && !isImportantForExam && examTags == [] && syllabusUnit == "" && file.None?
    }

    /** The setters of a successful upload, field by field. */
    method Reset()
      modifies this
      ensures Initial()
      ensures loading == old(loading) && dragActive == old(dragActive)
    {
      title := "";
      subject := "";
      department := "";
      semester := "";
      isImportantForExam := false;
      examTags := [];
      syllabusUnit := "";
      file := None;
    }

    constructor ()
      ensures Initial() && !loading && !dragActive
    {
      title, subject, department, semester := "", "", "", "";
      isImportantForExam := false;
      examTags := [];
      syllabusUnit := "";
      file := None;
      loading, dragActive := false, false;
    }
  }

  /** `handleSubmit`. Without a file, and then without a department or a
      semester, it only shows a message and sends nothing. Otherwise it
      sends the body of the form; `uploaded` is the server's answer and
      `serverMessage` the message of a refusal. After a success every field
      is back at its initial value, after a failure the fields are kept;
      either way the page is no longer loading. */
  method HandleSubmit(form: UploadForm, uploaded: bool, serverMessage: Option<string>)
    returns (sent: Option<FormData>, toast: string)
    modifies form
    ensures old(form.file).None? ==>
      sent.None? && toast == NO_FILE && unchanged(form)
    ensures old(form.file).Some? && (old(form.department) == "" || old(form.semester) == "") ==>
      sent.None? && toast == NO_PLACE && unchanged(form)
    ensures old(form.file).Some? && old(form.department) != "" && old(form.semester) != "" ==>
      && sent == Some(Payload(old(form.title), old(form.subject), old(form.department),
                              old(form.semester), old(form.isImportantForExam), old(form.examTags),
                              old(form.syllabusUnit), old(form.file).value))
      && !form.loading && !form.dragActive
      && (uploaded ==> toast == UPLOADED && form.Initial())
      && (!uploaded ==> toast == OrElse(serverMessage, UPLOAD_FAILED)
                        && form.title == old(form.title) && form.subject == old(form.subject)
                        && form.department == old(form.department)
                        && form.semester == old(form.semester)
                        && form.isImportantForExam == old(form.isImportantForExam)
                        && form.examTags == old(form.examTags)
                        && form.syllabusUnit == old(form.syllabusUnit) && form.file == old(form.file))
  {
    if form.file.None? {
      return None, NO_FILE;
    }
    if form.department == "" || form.semester == "" {
      return None, NO_PLACE;
    }
    form.loading := true;
    var data := BuildBody(form);
    sent := Some(data);
    if uploaded {
      toast := UPLOADED;
      form.Reset();
    } else {
      toast := OrElse(serverMessage, UPLOAD_FAILED);
    }
    form.loading := false;
    form.dragActive := false;
  }

  /** Appends the fields of a form that passed the guards, one by one. */
  method BuildBody(form: UploadForm) returns (data: FormData)
    requires form.file.Some?
    ensures data == Payload(form.title, form.subject, form.department, form.semester,
                            form.isImportantForExam, form.examTags, form.syllabusUnit,
                            form.file.value)
  {
    data := map[];
    data := data[TitleKey := Text(form.title)];
    data := data[SubjectKey := Text(form.subject)];
    data := data[DepartmentKey := Text(form.department)];
    data := data[SemesterKey := Text(form.semester)];
    data := data[ImportantKey := Text(BoolText(form.isImportantForExam))];
    if |form.examTags| > 0 {
      data := data[ExamTagsKey := Text(ExamTagsText(form.examTags))];
    }
    if form.syllabusUnit != "" {
      data := data[SyllabusUnitKey := Text(form.syllabusUnit)];
    }
    data := data[FileKey := Attachment(form.file.value)];
  }
}
