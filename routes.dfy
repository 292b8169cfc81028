/** The route tables of the notes and announcement routers: which handler
    a request reaches, and which middleware runs before it. A request
    path is given as its segments after the router's mount point
    (`/api/notes/42/download` is `["42", "download"]`). The middleware
    itself lives in `middleware/auth.js` and `middleware/upload.js`,
    which are not part of this model: `protect` is modelled as admitting
    exactly the callers with a valid token, `authorize(...)` as admitting
    exactly the listed roles, and `upload.single('file')` as taking in the
    file when one is sent and never stopping the request. */
module Routes {
  import opened Common
  import opened Strings

  datatype Verb = Get | Post | Put | Delete

  /** A segment of a route pattern: a literal, which Express's default
      router compares ignoring case, or a `:param`, which matches any
      non-empty segment. */
  datatype Segment = Lit(text: string) | Param

  /** One middleware of a chain. */
  datatype Step = Protect | Authorize(roles: set<Role>) | UploadSingle

  datatype Handler =
    | ListNotes | NoteStats | ReadNote | DownloadNoteFile | UploadNote | RemoveNote
    | AddComment | RemoveComment | AddRating
    | ListAnnouncements | ReadAnnouncement | CreateAnnouncement | UpdateAnnouncement
    | RemoveAnnouncement

  datatype Route = Route(verb: Verb, pattern: seq<Segment>, steps: seq<Step>, handler: Handler)

  /** `protect`. */
  const SIGNED_IN: seq<Step> := [Protect]
  /** `protect, authorize('teacher', 'admin')`. */
  const STAFF_ONLY: seq<Step> := [Protect, Authorize(STAFF)]
  /** `protect, authorize('teacher', 'admin'), upload.single('file')`. */
  const STAFF_UPLOAD: seq<Step> := [Protect, Authorize(STAFF), UploadSingle]

  /** The notes router, in declaration order. */
  const NOTES_ROUTES: seq<Route> := [
    Route(Get, [], [], ListNotes),
    Route(Get, [Lit("stats")], [], NoteStats),
    Route(Get, [Param], [], ReadNote),
    Route(Get, [Param, Lit("download")], [], DownloadNoteFile),
    Route(Post, [], STAFF_UPLOAD, UploadNote),
    Route(Delete, [Param], STAFF_ONLY, RemoveNote),
    Route(Post, [Param, Lit("comments")], SIGNED_IN, AddComment),
    Route(Delete, [Param, Lit("comments"), Param], SIGNED_IN, RemoveComment),
    Route(Post, [Param, Lit("ratings")], SIGNED_IN, AddRating)
  ]

  /** The announcement router, in declaration order. */
  const ANNOUNCEMENT_ROUTES: seq<Route> := [
    Route(Get, [], [], ListAnnouncements),
    Route(Get, [Param], [], ReadAnnouncement),
    Route(Post, [], STAFF_ONLY, CreateAnnouncement),
    Route(Put, [Param], STAFF_ONLY, UpdateAnnouncement),
    Route(Delete, [Param], STAFF_ONLY, RemoveAnnouncement)
  ]

  predicate SegmentMatches(p: Segment, s: string)
  {
    match p
    case Lit(t) => EqualsIgnoreCase(s, t)
    case Param => s != ""
  }

  predicate Matches(r: Route, verb: Verb, path: seq<string>)
  {
    && r.verb == verb && |r.pattern| == |path|
    && forall i :: 0 <= i < |path| ==> SegmentMatches(r.pattern[i], path[i])
  }

  /** Express tries the routes in declaration order: the first match wins. */
  function Resolve(routes: seq<Route>, verb: Verb, path: seq<string>): (r: Option<nat>)
    ensures r.Some? ==> r.value < |routes| && Matches(routes[r.value], verb, path)
    ensures r.Some? ==> forall j :: 0 <= j < r.value ==> !Matches(routes[j], verb, path)
    ensures r.None? <==> forall j :: 0 <= j < |routes| ==> !Matches(routes[j], verb, path)
  {
    if routes == [] then None
    else if Matches(routes[0], verb, path) then Some(0)
    else match Resolve(routes[1..], verb, path)
      case None => None
      case Some(i) => Some(i + 1)
  }

  /** The caller as the middleware sees it: the role of the account whose
      valid token the request carries, `None` without one. */
  type Caller = Option<Role>

  /** Whether one middleware lets the caller through. */
  predicate Admits(s: Step, caller: Caller)
  {
    match s
    case Protect => caller.Some?
    case Authorize(roles) => caller.Some? && caller.value in roles
    case UploadSingle => true
  }

  datatype Denial = NotAuthenticated | NotPermitted

  /** How a request leaves its middleware chain, and whether the file it
      carried was taken in on the way. */
  datatype Passage = Stopped(why: Denial, fileTaken: bool) | Passed(fileTaken: bool)

  /** Runs the chain in order; `taken` says whether a file has already
      been taken in. */
  function RunSteps(steps: seq<Step>, caller: Caller, fileSent: bool, taken: bool): (r: Passage)
    ensures r.Passed? <==> forall i :: 0 <= i < |steps| ==> Admits(steps[i], caller)
    ensures r.fileTaken <==>
      taken || (fileSent && exists i :: 0 <= i < |steps| && steps[i] == UploadSingle
                                         && forall j :: 0 <= j < i ==> Admits(steps[j], caller))
  {
    if steps == [] then Passed(taken)
    else
      var rest := RunSteps(steps[1..], caller, fileSent, taken || (steps[0] == UploadSingle && fileSent));
      assert forall i :: 0 < i < |steps| ==> steps[i] == steps[1..][i - 1];
      match steps[0]
      case Protect => if caller.None? then Stopped(NotAuthenticated, taken) else rest
      case Authorize(roles) =>
        if caller.None? || caller.value !in roles then Stopped(NotPermitted, taken) else rest
      case UploadSingle => rest
  }

  /** What becomes of a request. */
  datatype Outcome = NoRoute | Refused(why: Denial, fileTaken: bool) | Handled(handler: Handler, fileTaken: bool)

  function Dispatch(routes: seq<Route>, verb: Verb, path: seq<string>, caller: Caller, fileSent: bool)
    : (r: Outcome)
    ensures r.NoRoute? <==> Resolve(routes, verb, path).None?
    ensures r.Handled? ==>
      var i := Resolve(routes, verb, path).value;
      && routes[i].handler == r.handler
      && forall k :: 0 <= k < |routes[i].steps| ==> Admits(routes[i].steps[k], caller)
  {
    match Resolve(routes, verb, path)
    case None => NoRoute
    case Some(i) =>
      match RunSteps(routes[i].steps, caller, fileSent, false)
      case Stopped(why, taken) => Refused(why, taken)
      case Passed(taken) => Handled(routes[i].handler, taken)
  }

  /** The route at `i` is the first that matches. */
  lemma ResolveFirst(routes: seq<Route>, verb: Verb, path: seq<string>, i: nat)
    requires i < |routes| && Matches(routes[i], verb, path)
    requires forall j :: 0 <= j < i ==> !Matches(routes[j], verb, path)
    ensures Resolve(routes, verb, path) == Some(i)
  {
  }

  /** `protect` stops exactly the callers without an account. */
  lemma SignedInRuns(caller: Caller, fileSent: bool)
    ensures RunSteps(SIGNED_IN, caller, fileSent, false) ==
      if caller.None? then Stopped(NotAuthenticated, false) else Passed(false)
  {
    assert SIGNED_IN[1..] == [];
  }

  /** The staff chain stops the callers without an account, then the
      students. */
  lemma StaffOnlyRuns(caller: Caller, fileSent: bool)
    ensures RunSteps(STAFF_ONLY, caller, fileSent, false) ==
      if caller.None? then Stopped(NotAuthenticated, false)
      else if caller.value !in STAFF then Stopped(NotPermitted, false)
      else Passed(false)
  {
    assert STAFF_ONLY[1..] == [Authorize(STAFF)];
    assert STAFF_ONLY[1..][1..] == [];
  }

  /** The upload chain takes the file in last, after both checks. */
  lemma StaffUploadRuns(caller: Caller, fileSent: bool)
    ensures RunSteps(STAFF_UPLOAD, caller, fileSent, false) ==
      if caller.None? then Stopped(NotAuthenticated, false)
      else if caller.value !in STAFF then Stopped(NotPermitted, false)
      else Passed(fileSent)
  {
    assert STAFF_UPLOAD[1..] == [Authorize(STAFF), UploadSingle];
    assert STAFF_UPLOAD[1..][1..] == [UploadSingle];
    assert STAFF_UPLOAD[1..][1..][1..] == [];
    assert RunSteps(STAFF_UPLOAD[1..][1..], caller, fileSent, false) == Passed(fileSent);
  }

  /* ---------------------------------------------------------------- */
  /* the notes router                                                  */

  /** Listing and statistics need no account. */
  lemma NotesListIsPublic(caller: Caller, fileSent: bool)
    ensures Dispatch(NOTES_ROUTES, Get, [], caller, fileSent) == Handled(ListNotes, false)
    ensures Dispatch(NOTES_ROUTES, Get, ["stats"], caller, fileSent) == Handled(NoteStats, false)
  {
    ResolveFirst(NOTES_ROUTES, Get, [], 0);
    assert !Matches(NOTES_ROUTES[0], Get, ["stats"]);
    ResolveFirst(NOTES_ROUTES, Get, ["stats"], 1);
  }

  /** `stats` in any mix of cases reaches the statistics. */
  lemma StatsInAnyCase(segment: string, caller: Caller, fileSent: bool)
    requires ToLower(segment) == "stats"
    ensures Dispatch(NOTES_ROUTES, Get, [segment], caller, fileSent) == Handled(NoteStats, false)
  {
    assert !Matches(NOTES_ROUTES[0], Get, [segment]);
    assert ToLower("stats") == "stats";
    ResolveFirst(NOTES_ROUTES, Get, [segment], 1);
  }

  /** Reading a note by any id but `stats` (in any case) needs no account. */
  lemma ReadNoteIsPublic(id: string, caller: Caller, fileSent: bool)
    requires id != "" && ToLower(id) != "stats"
    ensures Dispatch(NOTES_ROUTES, Get, [id], caller, fileSent) == Handled(ReadNote, false)
  {
    assert !SegmentMatches(NOTES_ROUTES[1].pattern[0], id);
    ResolveFirst(NOTES_ROUTES, Get, [id], 2);
  }

  /** Downloading needs no account. */
  lemma DownloadIsPublic(id: string, caller: Caller, fileSent: bool)
    requires id != ""
    ensures Dispatch(NOTES_ROUTES, Get, [id, "download"], caller, fileSent) == Handled(DownloadNoteFile, false)
  {
    ResolveFirst(NOTES_ROUTES, Get, [id, "download"], 3);
  }

  /** `stats` is declared before `:id`, so it never reaches the handler
      that reads a note by id, whatever its case. */
  lemma StatsIsNeverAnId(verb: Verb, path: seq<string>, caller: Caller, fileSent: bool)
    requires Dispatch(NOTES_ROUTES, verb, path, caller, fileSent).Handled?
    requires Dispatch(NOTES_ROUTES, verb, path, caller, fileSent).handler == ReadNote
    ensures verb == Get && |path| == 1 && ToLower(path[0]) != "stats" && path[0] != ""
  {
    var i := Resolve(NOTES_ROUTES, verb, path).value;
    assert NOTES_ROUTES[i].handler == ReadNote;
    assert i == 2;
    assert !Matches(NOTES_ROUTES[1], verb, path);
  }

  /** Uploading takes an account, then a teacher or administrator, then
      the file intake, in that order: a file is taken in only once both
      checks have passed. */
  lemma UploadGate(caller: Caller, fileSent: bool)
    ensures Dispatch(NOTES_ROUTES, Post, [], caller, fileSent) ==
      if caller.None? then Refused(NotAuthenticated, false)
      else if caller.value !in STAFF then Refused(NotPermitted, false)
      else Handled(UploadNote, fileSent)
  {
    ResolveFirst(NOTES_ROUTES, Post, [], 4);
    StaffUploadRuns(caller, fileSent);
  }

  /** Deleting a note takes a teacher or an administrator. */
  lemma RemoveNoteGate(id: string, caller: Caller, fileSent: bool)
    requires id != ""
    ensures Dispatch(NOTES_ROUTES, Delete, [id], caller, fileSent) ==
      if caller.None? then Refused(NotAuthenticated, false)
      else if caller.value !in STAFF then Refused(NotPermitted, false)
      else Handled(RemoveNote, false)
  {
    ResolveFirst(NOTES_ROUTES, Delete, [id], 5);
    StaffOnlyRuns(caller, fileSent);
  }

  /** Commenting takes an account, of any role. */
  lemma AddCommentGate(id: string, caller: Caller, fileSent: bool)
    requires id != ""
    ensures Dispatch(NOTES_ROUTES, Post, [id, "comments"], caller, fileSent) ==
      if caller.None? then Refused(NotAuthenticated, false) else Handled(AddComment, false)
  {
    ResolveFirst(NOTES_ROUTES, Post, [id, "comments"], 6);
    SignedInRuns(caller, fileSent);
  }

  /** Deleting a comment takes an account, of any role; who may delete
      which comment is the handler's check. */
  lemma RemoveCommentGate(id: string, commentId: string, caller: Caller, fileSent: bool)
    requires id != "" && commentId != ""
    ensures Dispatch(NOTES_ROUTES, Delete, [id, "comments", commentId], caller, fileSent) ==
      if caller.None? then Refused(NotAuthenticated, false) else Handled(RemoveComment, false)
  {
    ResolveFirst(NOTES_ROUTES, Delete, [id, "comments", commentId], 7);
    SignedInRuns(caller, fileSent);
  }

  /** Rating takes an account, of any role. */
  lemma AddRatingGate(id: string, caller: Caller, fileSent: bool)
    requires id != ""
    ensures Dispatch(NOTES_ROUTES, Post, [id, "ratings"], caller, fileSent) ==
      if caller.None? then Refused(NotAuthenticated, false) else Handled(AddRating, false)
  {
    assert !SegmentMatches(NOTES_ROUTES[6].pattern[1], "ratings");
    ResolveFirst(NOTES_ROUTES, Post, [id, "ratings"], 8);
    SignedInRuns(caller, fileSent);
  }

  /** Every write to a note needs an account. */
  lemma NoteWritesNeedAccount(verb: Verb, path: seq<string>, fileSent: bool)
    requires verb != Get
    ensures !Dispatch(NOTES_ROUTES, verb, path, None, fileSent).Handled?
  {
    var res := Resolve(NOTES_ROUTES, verb, path);
    if res.Some? {
      assert NOTES_ROUTES[res.value].verb == verb;
      assert 4 <= res.value;
      assert NOTES_ROUTES[res.value].steps[0] == Protect;
    }
  }

  /* ---------------------------------------------------------------- */
  /* the announcement router                                           */

  /** Listing and reading announcements need no account. */
  lemma AnnouncementReadsArePublic(id: string, caller: Caller, fileSent: bool)
    ensures Dispatch(ANNOUNCEMENT_ROUTES, Get, [], caller, fileSent) == Handled(ListAnnouncements, false)
    ensures id != "" ==>
      Dispatch(ANNOUNCEMENT_ROUTES, Get, [id], caller, fileSent) == Handled(ReadAnnouncement, false)
  {
    ResolveFirst(ANNOUNCEMENT_ROUTES, Get, [], 0);
    if id != "" {
      ResolveFirst(ANNOUNCEMENT_ROUTES, Get, [id], 1);
    }
  }

  /** Updating an announcement takes a teacher or an administrator before
      the handler's own check of the creator runs. */
  lemma UpdateAnnouncementGate(id: string, caller: Caller, fileSent: bool)
    requires id != ""
    ensures Dispatch(ANNOUNCEMENT_ROUTES, Put, [id], caller, fileSent) ==
      if caller.None? then Refused(NotAuthenticated, false)
      else if caller.value !in STAFF then Refused(NotPermitted, false)
      else Handled(UpdateAnnouncement, false)
  {
    ResolveFirst(ANNOUNCEMENT_ROUTES, Put, [id], 3);
    StaffOnlyRuns(caller, fileSent);
  }

  /** Only teachers and administrators reach the handlers that create,
      update or delete announcements, whatever the path. */
  lemma AnnouncementWritesAreStaffOnly(verb: Verb, path: seq<string>, caller: Caller, fileSent: bool)
    requires verb != Get
    requires Dispatch(ANNOUNCEMENT_ROUTES, verb, path, caller, fileSent).Handled?
    ensures caller.Some? && caller.value in STAFF
  {
    var i := Resolve(ANNOUNCEMENT_ROUTES, verb, path).value;
    assert ANNOUNCEMENT_ROUTES[i].verb == verb;
    assert 2 <= i;
    assert Admits(ANNOUNCEMENT_ROUTES[i].steps[1], caller);
  }
}
