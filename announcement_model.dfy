/** The announcement record, its enums and bounds. */
module AnnouncementSchema {
  import opened Common

  /** Whom an announcement addresses: everybody, or one department. The
      enum of the schema lists "All" and every department but "Other". */
  datatype Audience = All | Only(dept: Department)

  function AudienceName(a: Audience): string
  {
    match a
    case All => "All"
    case Only(d) => DepartmentName(d)
  }

  /** The enum check of the `department` field of an announcement. */
  function ParseAudience(s: string): (r: Option<Audience>)
    ensures r.Some? ==> AudienceName(r.value) == s && r.value != Only(Other)
    ensures forall a: Audience :: AudienceName(a) == s && a != Only(Other) ==> r == Some(a)
  {
    if s == "All" then Some(All)
    else match ParseDepartment(s)
      case Some(d) => if d == Other then None else Some(Only(d))
      case None => None
  }

  datatype Priority = Urgent | Normal | Info

  function PriorityName(p: Priority): string
  {
    match p
    case Urgent => "urgent"
    case Normal => "normal"
    case Info => "info"
  }

  /** The enum check of the `priority` field. */
  function ParsePriority(s: string): (r: Option<Priority>)
    ensures r.Some? ==> PriorityName(r.value) == s
    ensures forall p: Priority :: PriorityName(p) == s ==> r == Some(p)
  {
    if s == "urgent" then Some(Urgent)
    else if s == "normal" then Some(Normal)
    else if s == "info" then Some(Info)
    else None
  }

  const DEFAULT_AUDIENCE: string := "All"
  const DEFAULT_PRIORITY: string := "normal"
  /** Semester 0 addresses every semester. */
  const ALL_SEMESTERS: int := 0

  datatype Announcement = Announcement(
    id: Id,
    title: string,
    content: string,
    department: Audience,
    semester: int,
    priority: Priority,
    createdBy: Id,
    expiresAt: Option<int>,
    isActive: bool,
    isPinned: bool,
    createdAt: int)

  /** The constraints the schema checks whenever an announcement is saved
      (the enums are checked when the fields are cast, see `ParseAudience`
      and `ParsePriority`; "Other" is never an audience). */
  predicate ValidAnnouncement(a: Announcement)
  {
    && a.title != "" && a.content != ""
    && a.department != Only(Other)
    && ALL_SEMESTERS <= a.semester <= 8
  }
}
