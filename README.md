# Nexnote, modelled in Dafny

Nexnote is a note-sharing application for a college. It has two parts.

- **The server** is an Express application over MongoDB. Teachers and admins upload study notes, each a file with metadata such as department, semester, exam tags and syllabus unit. Signed-in users comment on notes, rate them and keep favorites. Announcements can be scoped to a department and a semester, pinned, and given an expiry date.
- **The client** is a React application. It lists, filters and sorts the notes, shows the controls each role may use, and builds the upload request.

The model covers the rules those two parts apply:

- **Records and schema constraints.** `NoteSchema`, `UserSchema` and `AnnouncementSchema` give the three record types with their bounds, enums and defaults.
- **The store.** `Store.Db` is a class holding maps from identifiers to records, the set of uploaded file names and the identifier generator. Its methods save and create records and keep the store's invariant.
- **The controllers.** Each is a set of methods that change the store. Each method states the complete new store and reply for every branch of the handler: the validation replies (400), missing records (404), ownership refusals (403) and schema failures (500). Pure functions compute what the handlers derive, such as upload defaults, listing filters, statistics, rating upserts, profile and announcement patches, and login.
- **The routers.** `Routes` holds the route tables with their middleware chains: public, `protect`, and `authorize('teacher', 'admin')` with the file intake.
- **Client logic.**
  - The request interceptor and the parsing of the download file name (`ClientApi`).
  - The filter and sort pipeline of the notes page, with an in-place insertion sort over an array (`ViewNotes`).
  - The card's controls and local updates (`NoteCard`).
  - The role-filtered sidebar (`Layout`).
  - The upload form's tag toggle and submit handler (`UploadNotes`).
- **Client against server.** `Consistency` proves that the client's controls and the server's gates agree, and analyses the request body the upload form sends.

How the model represents things the source leaves to libraries:

- **Clock.** The clock is a parameter `now`.
- **Hashing.** bcrypt is an injective constructor `Digest(preimage)`.
- **Tokens.** A JWT is `Token(userId)`.
- **Numbers.** JavaScript numbers are `int`, and ratings and averages are `real`.
- **Absent values.** Optional request fields are `Option<string>`. JavaScript truthiness of a string is `Truthy`: present and non-empty.

## Model

| member | source | states |
|---|---|---|
| Common.ParseDepartment | server/models/User.js:12-15 | the department enum cast: succeeds exactly on the nine department names and returns the department with that name |
| Common.ParseRole | server/models/User.js:9 | the role enum cast: succeeds exactly on `student`, `teacher`, `admin` |
| Common.OrElse | server/controllers/announcementController.js:15-17 | `a || b` on an optional string: `a` when truthy, `b` otherwise |
| Strings.Trim | server/models/Note.js:18-19 | `String.prototype.trim`: the result is the infix left after removing blank margins on both ends, it is empty exactly for blank input and starts and ends with non-space; blank means ECMAScript white space (tab, vertical tab, form feed, byte order mark, every Unicode space separator) and line terminators |
| Strings.TrimIdempotent | server/models/Note.js:18-19 | trimming twice equals trimming once |
| Strings.ToLower | server/models/User.js:7 | lower-casing keeps the length, maps each character and leaves no ASCII, Latin-1 or basic Cyrillic capital |
| Strings.ToLowerIdempotent | server/models/User.js:7 | lower-casing twice equals lower-casing once |
| Strings.Utf16Length | server/models/User.js:8 | the length JavaScript and Mongoose count: between the number of characters and twice that, and equal to it exactly when no character lies outside the Basic Multilingual Plane |
| Strings.JoinSplit | server/controllers/notesController.js:24 | joining the comma-split pieces gives back the input |
| Strings.SplitJoin | server/controllers/notesController.js:24 | splitting pieces without commas that were joined by commas gives back the pieces |
| Strings.SplitTrimmed | server/controllers/notesController.js:24-27 | `x ? x.split(',').map(trim) : []`: empty for absent or empty input, otherwise exactly the trimmed comma-separated pieces |
| Strings.ParseInt | server/controllers/notesController.js:28 | `parseInt` without a radix: fails (NaN) exactly when, after leading white space, an optional sign and an optional `0x`/`0X` prefix, no digit of the selected base follows |
| Strings.ParseIntOfNatToString | server/controllers/notesController.js:22 | `parseInt` of a number's decimal text gives back the number |
| Strings.ParseIntReadsDecimal | server/controllers/notesController.js:28 | a signed decimal spelling followed by any non-digit (other than the `x` of `0x`) reads as that number |
| Strings.ParseIntReadsHex | server/controllers/notesController.js:28 | a signed `0x`/`0X` spelling in base 16 followed by a non-hex-digit reads as that number |
| Strings.ParseIntBareHexPrefix | server/controllers/notesController.js:28 | `0x` without a hexadecimal digit after it is NaN |
| Strings.ParseIntSkipsSpace | server/controllers/notesController.js:53 | leading white space does not change the result |
| UserSchema.ComparePasswordExact | server/models/User.js:44-46 | `comparePassword` succeeds exactly when the candidate is the password that was hashed |
| UserSchema.PreSave | server/models/User.js:38-42 | the hook keeps the digest when the password was not modified, and otherwise stores a digest that matches exactly the new password |
| UserSchema.NewUser | server/models/User.js:4-35 | a created user: email lower-cased and trimmed, name trimmed, password hashed, not verified, empty bio, avatar and favorites, 0 points and streak, no badges |
| UserSchema.WithoutPassword | server/models/User.js:8 | the public view of a user (`select: false` on the password) keeps every other stored field |
| UserSchema.WithoutPasswordExact | server/models/User.js:8 | two users have the same public view exactly when they differ at most in their password |
| NoteSchema.ParseExamTag | server/models/Note.js:38 | the exam-tag enum cast: succeeds exactly on the four tag names |
| NoteSchema.ParseExamTags | server/models/Note.js:38 | casting a list of strings succeeds exactly when every string is a tag name, and keeps length and order |
| NoteSchema.Mean | server/models/Note.js:63-67 | 0 for no ratings, otherwise the value that times the count gives the sum |
| NoteSchema.MeanInRange | server/models/Note.js:13 | the mean of at least one rating within 1..5 lies within 1..5 |
| NoteSchema.RatingSumBounds | server/models/Note.js:13 | the sum of ratings within 1..5 lies between the count and five times the count |
| NoteSchema.CalculateAverageRating | server/models/Note.js:62-69 | only `averageRating` changes; it becomes 0 without ratings, otherwise sum divided by count, and lies within 1..5 when the ratings do |
| NoteSchema.FreshNoteInvariant | server/models/Note.js:49-53 | a note that passes the schema, without comments and ratings and with average 0, satisfies the invariant kept for every stored note |
| AnnouncementSchema.ParseAudience | server/models/Announcement.js:7-11 | the department enum cast for announcements: `All` or one of eight departments, never `Other` |
| AnnouncementSchema.ParsePriority | server/models/Announcement.js:13-17 | the priority enum cast: exactly `urgent`, `normal`, `info` |
| Store.NotesOkUpdate | server/models/Note.js:16-59 | replacing a stored note by one that keeps the note invariant keeps the store's note invariant |
| Store.UsersOkUpdate | server/models/User.js:7 | replacing a user by a valid one with the same email keeps emails unique |
| Store.Db.SaveNote | server/controllers/commentController.js:22 | `note.save()`: the note's entry is replaced, every other collection is unchanged, and the invariant is kept |
| Store.Db.CreateNote | server/controllers/notesController.js:18-32 | `Note.create`: the note is stored under a fresh id, and nothing else changes |
| Store.Db.SaveUser | server/controllers/userController.js:28 | `user.save()`: the user's entry is replaced, and nothing else changes |
| Store.Db.AwardPoints | server/controllers/notesController.js:35-36 | adds exactly `n` points to one user, and nothing else changes |
| Store.Db.CreateUser | server/controllers/authController.js:19-27 | `User.create`: the user is stored under a fresh id with an unused email |
| Store.Db.SaveAnnouncement | server/controllers/announcementController.js:120 | `announcement.save()`: the entry is replaced, and nothing else changes |
| Store.Db.CreateAnnouncement | server/controllers/announcementController.js:14-23 | `Announcement.create`: stored under a fresh id |
| CommentController.FindComment | server/controllers/commentController.js:42-43 | `note.comments.id(cid)`: the first comment with that id, or none exactly when no comment has it |
| CommentController.RemoveCommentById | server/controllers/commentController.js:50-51 | removing the found comment leaves exactly the comments with other ids, still distinct |
| CommentController.FindRating | server/controllers/commentController.js:74-76 | `ratings.find`: the first rating by the user, or none exactly when the user has not rated |
| CommentController.FindRatingAt | server/controllers/commentController.js:74-76 | the first index holding the user's rating is what the search finds |
| CommentController.UpsertRating | server/controllers/commentController.js:78-82 | an existing rating keeps the length, otherwise one rating is appended; other users' ratings are unchanged; afterwards the user's rating has value `v` |
| CommentController.UpsertTwice | server/controllers/commentController.js:74-82 | rating twice is the same as rating once with the second value |
| CommentController.UpsertKeepsInvariant | server/controllers/commentController.js:74-82 | the upsert keeps at most one rating per user and every rating within 1..5 |
| CommentController.AppendCommentKeepsInvariant | server/controllers/commentController.js:17-20 | appending a comment with a new, larger id and non-empty text keeps the note invariant |
| CommentController.AddComment | server/controllers/commentController.js:6-32 | blank text gives 400 before the note is read and changes nothing; an unknown note gives 404; otherwise exactly one comment (author = actor, text trimmed) is appended and the saved note is returned with 201 |
| CommentController.DeleteComment | server/controllers/commentController.js:37-57 | 404 for a missing note, 404 for a missing comment, 403 unless author or admin (nothing changes); otherwise exactly that comment is removed, order kept |
| CommentController.AddRating | server/controllers/commentController.js:62-91 | a missing rating or one outside 1..5 gives 400; an unknown note gives 404; otherwise the rating is upserted, the average becomes the mean and is returned, within 1..5 |
| UserController.GetProfile | server/controllers/userController.js:7-14 | always 200 with the actor's whole record but its password |
| UserController.ProfileHidesPassword | server/controllers/userController.js:9 | the profile reply does not depend on the stored password |
| UserController.PatchProfile | server/controllers/userController.js:24-26 | name changes only for a truthy value (trimmed by the schema), bio and avatar whenever supplied, nothing else changes |
| UserController.PatchProfileIdempotent | server/controllers/userController.js:24-26 | applying the same patch twice equals applying it once |
| UserController.PatchProfileValid | server/models/User.js:24 | a patched valid user passes the schema exactly when the new name is not blank and the new bio has at most 500 UTF-16 code units |
| UserController.UpdateProfile | server/controllers/userController.js:19-35 | on a valid patch the user is replaced and the public record returned, and otherwise 500 with no change |
| UserController.ChangePassword | server/controllers/userController.js:40-61 | 400 when either password is missing, 401 with no change on a wrong current password, 500 for a new password shorter than 6 UTF-16 code units, otherwise the stored digest matches the new password |
| UserController.ChangedPasswordMatches | server/controllers/userController.js:50-51 | after a change exactly the new password is accepted |
| UserController.Toggled | server/controllers/userController.js:71-80 | a present id makes the list one shorter, and an absent id is appended at the end |
| UserController.ToggledPresent | server/controllers/userController.js:71-76 | the first occurrence, at `indexOf`, is the one spliced out |
| UserController.ToggleTwiceAbsent | server/controllers/userController.js:71-80 | toggling an absent id twice gives back the list |
| UserController.ToggleTwicePresent | server/controllers/userController.js:71-80 | toggling a present id twice moves it to the end, the same multiset |
| UserController.ToggledNoDup | server/controllers/userController.js:66-85 | a list without duplicates stays without duplicates |
| UserController.ToggleFavorite | server/controllers/userController.js:66-85 | the favorites become the toggled list, with no check that the note exists; the reply says whether the note is now a favorite |
| AuthController.GenerateToken | server/controllers/authController.js:4-5 | the token is issued for that user id |
| AuthController.TokensDistinct | server/controllers/authController.js:4-5 | different users get different tokens |
| AuthController.FindByEmail | server/controllers/authController.js:16 | `User.findOne({ email })`: a user with that email, or none exactly when there is none |
| AuthController.FindByEmailUnique | server/controllers/authController.js:55 | with unique emails the lookup finds exactly the user holding the email |
| AuthController.SignupRole | server/controllers/authController.js:23 | `role || 'student'`, cast to the enum |
| AuthController.SignupDepartment | server/controllers/authController.js:24 | an absent department is left out, and a present one must be in the enum |
| AuthController.NewAccount | server/controllers/authController.js:19-27 | the cast fails exactly on a bad role or department; otherwise the user has the fresh id, the normalised email, the supplied or default role and a password digest that matches |
| AuthController.SignupReplyOf | server/controllers/authController.js:29-40 | the reply carries the user id and the token generated from it, and no password field |
| AuthController.Signup | server/controllers/authController.js:10-44 | 400 for missing name, email or password; 400 with no change for a registered email; otherwise the account is stored under a fresh id with 201, or 500 with no change when the schema refuses it |
| AuthController.StoreAccount | server/controllers/authController.js:19-40 | a built account is stored and answered with 201 when accepted by the schema, and 500 with no change otherwise |
| AuthController.SignupDefaultRole | server/controllers/authController.js:23 | without a role the account is a student |
| AuthController.Login | server/controllers/authController.js:49-78 | 400 when email or password is missing; success only for a user with that email whose password matches, with a token for that id; every other failure is the same 401 message |
| AuthController.LoginExact | server/controllers/authController.js:55-58 | login succeeds exactly when some user has the email and the password, and fails with one generic message otherwise |
| AuthController.LoginAfterSignup | server/controllers/authController.js:10-78 | logging in right after sign-up with the same email and password succeeds for the new id |
| AnnouncementController.SemesterOrAll | server/controllers/announcementController.js:16 | `semester || 0` |
| AnnouncementController.NewAnnouncement | server/controllers/announcementController.js:14-23 | the cast fails exactly on a bad department or priority; otherwise title trimmed, defaults `All`, 0, `normal`, not pinned, active, created by the actor |
| AnnouncementController.NewAnnouncementDefaults | server/controllers/announcementController.js:14-23 | with only title and content the defaults are `All`, semester 0, `normal`, not pinned, active |
| AnnouncementController.CreateAnnouncement | server/controllers/announcementController.js:6-32 | 400 for missing title or content with no change; otherwise stored with 201, or 500 with no change when the schema refuses |
| AnnouncementController.GetAnnouncements | server/controllers/announcementController.js:37-73 | a semester filter whose cast fails gives 500; otherwise the listed announcements in pinned-then-newest order, as a permutation of the matching records |
| AnnouncementController.GetAnnouncementsExact | server/controllers/announcementController.js:41-63 | an announcement is listed exactly when it is stored, active, not expired, and in the department and semester scope ('All' and 0 as wildcards) |
| AnnouncementController.PinnedFirst | server/controllers/announcementController.js:67 | no unpinned announcement comes before a pinned one |
| AnnouncementController.BroadcastAlwaysListed | server/controllers/announcementController.js:51-63 | a current announcement for all departments and semesters is listed under every filter |
| AnnouncementController.ExpiredNotListed | server/controllers/announcementController.js:41-48 | an announcement whose expiry is not after now is never listed |
| AnnouncementController.GetAnnouncementById | server/controllers/announcementController.js:78-91 | 404 exactly for an unknown id, otherwise the stored record |
| AnnouncementController.Patched | server/controllers/announcementController.js:111-118 | title, content, department, priority change only for truthy values; semester, expiry, pinned, active whenever supplied; id, creator, creation time kept; the cast fails exactly on a bad department or priority |
| AnnouncementController.PatchedEmpty | server/controllers/announcementController.js:111-118 | an empty patch changes nothing |
| AnnouncementController.PatchedIdempotent | server/controllers/announcementController.js:111-118 | applying the same patch twice equals applying it once |
| AnnouncementController.UpdateAnnouncement | server/controllers/announcementController.js:96-129 | 404 for an unknown id; 403 with no change unless creator or admin; otherwise the patched record is stored and returned, or 500 with no change when the schema refuses |
| AnnouncementController.DeleteAnnouncement | server/controllers/announcementController.js:134-153 | 404 for an unknown id; 403 with no change unless creator or admin; otherwise exactly that record is removed |
| AnnouncementController.StudentsManageOnlyTheirOwn | server/controllers/announcementController.js:98-107 | a non-admin cannot manage another user's announcement, an admin can |
| AnnouncementController.DeletedNotFound | server/controllers/announcementController.js:83-85 | after a delete the id is not found |
| NotesController.LastIndexOf | server/controllers/notesController.js:97 | the last position of a character, or none exactly when it does not occur |
| NotesController.Extname | server/controllers/notesController.js:97 | `path.extname`: empty or a suffix that starts with the last dot, empty without a dot and for a name whose only dot leads |
| NotesController.ExtnameOfDotted | server/controllers/notesController.js:97 | the extension of `base.ext` is `.ext` |
| NotesController.UploadSemester | server/controllers/notesController.js:22 | `semester || req.user.semester || 1`, the body value cast with `parseInt` |
| NotesController.UploadUnit | server/controllers/notesController.js:28 | an absent unit is left out, and a present one must parse as an integer |
| NotesController.UploadDepartment | server/controllers/notesController.js:21 | `department || req.user.department || 'Other'` |
| NotesController.NoteFromUpload | server/controllers/notesController.js:18-32 | the cast fails exactly when a derived field does not fit its type or enum; a built note has the fresh id, no comments or ratings and average 0 |
| NotesController.NoteFromUploadDerived | server/controllers/notesController.js:18-32 | a built note carries the defaulted department and semester, category `General` by default, the split-and-trimmed lists, the flag true exactly for `'true'`, the file's name and size and the uploader |
| NotesController.UploadDefaults | server/controllers/notesController.js:21-28 | with title and subject only and an uploader without department and semester: `Other`, semester 1, `General`, no tags, not important, no unit |
| NotesController.UploadedEffect | server/controllers/notesController.js:18-40 | a note accepted by the schema is stored under the fresh id with 201 and the uploader gains exactly 10 points, other users unchanged; otherwise 500 and nothing changes |
| NotesController.UploadStoresDerivedNote | server/controllers/notesController.js:18-36 | on success the stored note is the one derived from the request and uploaded by the actor |
| NotesController.Upload | server/controllers/notesController.js:12-42 | no file gives 400; then a missing title or subject gives 400 with no note; otherwise the outcome is that of storing the derived note; the file intake adds the file name in every case |
| NotesController.StoreUpload | server/controllers/notesController.js:18-38 | the store and reply become exactly the computed outcome |
| NotesController.GetAllNotes | server/controllers/notesController.js:47-65 | 500 when the semester filter's cast fails; otherwise the matching notes newest first, a permutation of the matching records |
| NotesController.GetAllNotesExact | server/controllers/notesController.js:52-55 | a note is listed exactly when stored and matching every supplied filter (department equal, semester equal, flag only for `'true'`, subject contains the filter ignoring case) |
| NotesController.GetNoteById | server/controllers/notesController.js:106-122 | 404 for an unknown id, otherwise views go up by exactly one and the note is returned |
| NotesController.DownloadNote | server/controllers/notesController.js:86-101 | 404 for an unknown id; otherwise downloads go up by exactly one, even when the file is then missing (404); the name is title plus extension |
| NotesController.DeleteNote | server/controllers/notesController.js:70-81 | 404 for an unknown id; otherwise exactly that record and its file are removed |
| NotesController.Subjects | server/controllers/notesController.js:143 | the subject of each note, in order |
| NotesController.TallySpec | server/controllers/notesController.js:142-145 | the grouping has distinct subjects, each counted as often as it occurs, positive counts summing to the number of notes |
| NotesController.BumpCount | server/controllers/notesController.js:143 | counting one more note raises only its subject's count, by one |
| NotesController.BumpDistinct | server/controllers/notesController.js:143 | counting keeps the groups distinct and positive |
| NotesController.BumpSum | server/controllers/notesController.js:143 | counting one more note raises the total by one |
| NotesController.TopNotes | server/controllers/notesController.js:137-140 | at most 5 notes, all of them when fewer, in non-increasing downloads |
| NotesController.SubjectGroups | server/controllers/notesController.js:142-145 | the groups in non-increasing count |
| NotesController.GetStats | server/controllers/notesController.js:127-157 | `totalNotes` is the number of notes, and the top notes and groups are as computed |
| NotesController.StatsTotals | server/controllers/notesController.js:129-135 | the totals are the sums of downloads and views in any order of the notes (0 without notes) |
| NotesController.TopNotesAreMostDownloaded | server/controllers/notesController.js:137-140 | the top notes are drawn from the store and no note left out has more downloads than any chosen one |
| NotesController.SubjectGroupsExact | server/controllers/notesController.js:142-153 | each group counts exactly the notes with its subject, every stored subject has a group, and the counts sum to `totalNotes` |
| Query.MinId | server/controllers/notesController.js:57 | the least identifier of a non-empty set |
| Query.SortedIds | server/controllers/notesController.js:57 | the identifiers of a collection in natural (ascending) order, each once |
| Query.Records | server/controllers/notesController.js:57 | the records of a collection in natural order, one per key |
| Query.RecordsExact | server/controllers/notesController.js:57 | the records are exactly the stored values |
| Query.SortedFilterExact | server/controllers/notesController.js:57-60 | a sorted query result holds exactly the stored values that match |
| Query.Insert | server/controllers/notesController.js:60 | inserting into a sorted sequence keeps it sorted and adds exactly the element |
| Query.SortDesc | server/controllers/notesController.js:60 | `.sort({ key: -1 })`: sorted by non-increasing key, a permutation of the input |
| Query.Take | server/controllers/notesController.js:139 | `.limit(n)`: the first `min(n, length)` elements |
| Query.TakeSorted | server/controllers/notesController.js:138-139 | a prefix of a sorted sequence is sorted |
| Query.TakeOfSortedIsTop | server/controllers/notesController.js:138-139 | no element left out of a sorted prefix has a larger key than any element kept |
| Query.TopOfSortDesc | server/controllers/notesController.js:138-139 | sort then limit picks a sub-multiset with the largest keys |
| Query.SumByPermutation | server/controllers/notesController.js:130-135 | `$sum` does not depend on the order of the records |
| Routes.Resolve | server/routes/notesRoutes.js:17-29 | the first route in table order that matches verb and path (literal segments ignoring case), or none exactly when no route matches |
| Routes.RunSteps | server/routes/notesRoutes.js:23 | a middleware chain lets the request through exactly when every step admits the caller; the file is taken exactly when the intake step is reached |
| Routes.Dispatch | server/routes/notesRoutes.js:17-29 | no route exactly when nothing matches; a handled request reached the first matching route's handler with every step admitting the caller |
| Routes.ResolveFirst | server/routes/notesRoutes.js:17-29 | the first matching route is the one chosen |
| Routes.SignedInRuns | server/routes/notesRoutes.js:27 | `protect` alone refuses exactly the callers without an account |
| Routes.StaffOnlyRuns | server/routes/notesRoutes.js:24 | `protect, authorize('teacher', 'admin')` refuses no account with 401 and other roles with 403 |
| Routes.StaffUploadRuns | server/routes/notesRoutes.js:23 | for upload, authentication, then role, then file intake, in that order |
| Routes.NotesListIsPublic | server/routes/notesRoutes.js:17-18 | listing and stats reach their handlers for every caller |
| Routes.StatsInAnyCase | server/routes/notesRoutes.js:18 | `stats` in any mix of cases reaches the statistics for every caller |
| Routes.ReadNoteIsPublic | server/routes/notesRoutes.js:19 | reading a note by any id that is not `stats` in some case reaches its handler for every caller |
| Routes.DownloadIsPublic | server/routes/notesRoutes.js:20 | downloading reaches its handler for every caller |
| Routes.StatsIsNeverAnId | server/routes/notesRoutes.js:18-19 | the read handler is never reached with `stats`, in any case, as the id |
| Routes.UploadGate | server/routes/notesRoutes.js:23 | upload: 401 without an account, 403 for students, and the handler with the file for staff |
| Routes.RemoveNoteGate | server/routes/notesRoutes.js:24 | delete: 401 without an account, 403 for students, the handler for staff |
| Routes.AddCommentGate | server/routes/notesRoutes.js:27 | commenting needs an account and no particular role |
| Routes.RemoveCommentGate | server/routes/notesRoutes.js:28 | deleting a comment needs an account and no particular role |
| Routes.AddRatingGate | server/routes/notesRoutes.js:29 | rating needs an account and no particular role |
| Routes.NoteWritesNeedAccount | server/routes/notesRoutes.js:23-29 | no request other than a GET reaches a handler without an account |
| Routes.AnnouncementReadsArePublic | server/routes/announcementRoutes.js:14-15 | listing and reading announcements reach their handlers for every caller |
| Routes.UpdateAnnouncementGate | server/routes/announcementRoutes.js:19 | update: 401 without an account, 403 for students, the handler for staff |
| Routes.AnnouncementWritesAreStaffOnly | server/routes/announcementRoutes.js:18-20 | a write reaches its handler only for a teacher or admin, so a student never updates or deletes an announcement |
| ClientApi.BearerToken | client/src/api/api.js:12 | reads back the token from a `Bearer` header |
| ClientApi.AuthorizationHeader | client/src/api/api.js:12 | a header exactly when a token is stored, carrying that token |
| ClientApi.Intercept | client/src/api/api.js:10-14 | sets `Authorization: Bearer <token>` exactly when a token is stored, and leaves every other header alone |
| ClientApi.RunLength | client/src/api/api.js:32 | the longest run without `"` or `;` |
| ClientApi.MatchAt | client/src/api/api.js:32 | a match at a `filename=` captures a non-empty run without `"` or `;` |
| ClientApi.FindFilename | client/src/api/api.js:32 | the first match of the pattern, never empty, never holding `"` or `;` |
| ClientApi.FindFilenameSkip | client/src/api/api.js:32 | a search from a place with no match gives the result of a search further on |
| ClientApi.ExtractFilename | client/src/api/api.js:29-34 | with no header or no match the fallback name or `note`, otherwise the captured name |
| ClientApi.ExtractFilenameClean | client/src/api/api.js:29-34 | the saved name is never empty and holds neither `"` nor `;` |
| ClientApi.ExtractFromAttachment | client/src/api/api.js:32-33 | the header `attachment; filename="name"` reads back as `name` |
| ClientApi.RunFromHere | client/src/api/api.js:32 | a run ended by an excluded character is the longest run |
| ViewNotes.Step | client/src/pages/ViewNotes.jsx:49-71 | one filter stage keeps exactly the notes that pass when it is on, as a subsequence |
| ViewNotes.FilteredExact | client/src/pages/ViewNotes.jsx:46-71 | a note survives exactly when it is fetched and passes every enabled filter (search in title or subject ignoring case; subject, department, parsed semester, exam flag; 'all' or false disables) |
| ViewNotes.FilteredIsSubseq | client/src/pages/ViewNotes.jsx:46-71 | the filtered list is a subsequence of the fetched notes |
| ViewNotes.SortByKey | client/src/pages/ViewNotes.jsx:73-92 | the in-place sort leaves the array in non-increasing key order, with the same multiset |
| ViewNotes.SinkLast | client/src/pages/ViewNotes.jsx:73-92 | one insertion step extends the sorted prefix by one element and permutes |
| ViewNotes.SwapPermutes | client/src/pages/ViewNotes.jsx:73-92 | swapping two cells keeps the multiset |
| ViewNotes.FilteredAndSorted | client/src/pages/ViewNotes.jsx:46-95 | the result is a permutation of the filtered list; date-desc/asc give monotone `createdAt`, title-asc/desc monotone title rank, rating-desc non-increasing average; an unknown key keeps the filtered order |
| ViewNotes.LexTransitive | client/src/pages/ViewNotes.jsx:43 | the default string order (by UTF-16 code units) is transitive |
| ViewNotes.LexTotal | client/src/pages/ViewNotes.jsx:43 | the default string order is total on distinct strings |
| ViewNotes.InsertDistinct | client/src/pages/ViewNotes.jsx:42-43 | inserting into a strictly sorted list keeps it strictly sorted and adds exactly the element |
| ViewNotes.SortedSubjects | client/src/pages/ViewNotes.jsx:41-44 | strictly sorted, holding exactly the subjects of the fetched notes |
| ViewNotes.SubjectsDistinct | client/src/pages/ViewNotes.jsx:42 | each subject is listed once |
| ViewNotes.WithoutNote | client/src/pages/ViewNotes.jsx:101 | exactly the notes with another id, as a subsequence |
| ViewNotes.WithoutNoteCount | client/src/pages/ViewNotes.jsx:101 | every copy of a note with that id is gone and other notes keep their multiplicity |
| ViewNotes.NotesPage.constructor | client/src/pages/ViewNotes.jsx:97-106 | the page state holds the fetched notes |
| ViewNotes.HandleDelete | client/src/pages/ViewNotes.jsx:97-106 | after a confirmed, successful delete the list loses exactly the notes with that id; otherwise it is unchanged |
| NoteCard.ViewerId | client/src/components/NoteCard.jsx:251 | `user?._id`: absent exactly without a viewer |
| NoteCard.CommentDeleteMatchesServer | client/src/components/NoteCard.jsx:251 | for a signed-in viewer and a live author, the Delete button shows exactly when the server would delete the comment |
| NoteCard.AbsentIdsShowDelete | client/src/components/NoteCard.jsx:251 | without a viewer, the button shows on a comment whose author is gone (two absent ids are equal) and on no other |
| NoteCard.DraftMatchesServer | client/src/components/NoteCard.jsx:68 | a draft is sent exactly when it is not blank, which is exactly when the server accepts its text |
| NoteCard.AfterCommentDeleted | client/src/components/NoteCard.jsx:92-93 | the local comments lose exactly those with that id, order kept, and nothing else changes |
| NoteCard.DeleteAbsentComment | client/src/components/NoteCard.jsx:92-93 | removing an id the note does not hold changes nothing |
| NoteCard.AfterRating | client/src/components/NoteCard.jsx:108 | only `averageRating` changes, to the server's value |
| NoteCard.AfterRatingMatchesServer | client/src/components/NoteCard.jsx:108 | taking over the server's average reproduces the note the server computes |
| Layout.ViewerRole | client/src/components/Layout.jsx:87 | `user?.role || 'student'` |
| Layout.VisibleItems | client/src/components/Layout.jsx:87 | exactly the items whose roles include the viewer's role, in table order |
| Layout.ItemShown | client/src/components/Layout.jsx:87 | an item is shown exactly when its roles include the viewer's role |
| Layout.StaffOnlyItems | client/src/components/Layout.jsx:22-25 | Upload Notes and Analytics are shown exactly to teachers and admins |
| Layout.OtherItemsForEveryone | client/src/components/Layout.jsx:21-29 | the seven other items are shown to everyone, signed in or not |
| Layout.AtMostOneActive | client/src/components/Layout.jsx:89 | an item is active when the path equals its path exactly, so at most one is |
| UploadNotes.ToggleExamTag | client/src/pages/UploadNotes.jsx:69-73 | a present tag loses every occurrence, other counts kept, order kept; an absent tag is appended at the end |
| UploadNotes.ToggleTwiceAbsent | client/src/pages/UploadNotes.jsx:69-73 | toggling an absent tag twice gives back the selection |
| UploadNotes.ToggleTwicePresent | client/src/pages/UploadNotes.jsx:69-73 | toggling a present tag twice moves it to the end, once |
| UploadNotes.ToggleKeepsDistinct | client/src/pages/UploadNotes.jsx:69-73 | toggling keeps a duplicate-free selection duplicate-free |
| UploadNotes.PayloadFields | client/src/pages/UploadNotes.jsx:36-48 | the body holds the five fields, the exam tags exactly when some are selected, the syllabus unit exactly when set, and the file |
| UploadNotes.UploadForm.Reset | client/src/pages/UploadNotes.jsx:51-58 | every form field back at its initial value |
| UploadNotes.UploadForm.constructor | client/src/pages/UploadNotes.jsx:8-17 | the page starts with every field at its initial value |
| UploadNotes.HandleSubmit | client/src/pages/UploadNotes.jsx:24-67 | no file: a message and nothing sent; then no department or semester: a message and nothing sent; otherwise the body is sent, a success resets every field, a failure keeps them and shows the server's message or `Upload failed`; loading and drag state end cleared |
| UploadNotes.BuildBody | client/src/pages/UploadNotes.jsx:36-48 | the appended body equals the body of the form's fields |
| Consistency.CardDeleteMatchesRoute | client/src/components/NoteCard.jsx:29 | the card shows its delete control exactly to the viewers the router lets through to delete |
| Consistency.UploadLinkMatchesRoute | client/src/components/Layout.jsx:22 | the sidebar links to the upload page exactly for the callers the router lets through to upload |
| Consistency.OrphanCommentDeleteRefused | client/src/components/NoteCard.jsx:251 | where the card shows Delete to nobody signed in, the router refuses the request with 401 |
| Consistency.TextOf | client/src/pages/UploadNotes.jsx:36-48 | the text a body carries under a key, absent for missing keys and for the file |
| Consistency.ServerForm | server/controllers/notesController.js:15 | the request fields the handler reads from the client's body, with no category, tags or topics |
| Consistency.ExamTagOption | client/src/pages/UploadNotes.jsx:22 | each offered exam tag is a schema tag name without commas or surrounding space |
| Consistency.ExamTagsTextAccepted | server/controllers/notesController.js:26 | tags sent separated by commas reach the note as selected |
| Consistency.SubmittedFormBuildsNote | client/src/pages/UploadNotes.jsx:36-48 | with the corrected comma-separated encoding of the exam tags, a form filled from the page's choices builds a note with the chosen department, semester, exam flag and exam tags |
| Consistency.JsonExamTags | client/src/pages/UploadNotes.jsx:43 | `JSON.stringify` of the tags starts with `[` |
| Consistency.JsonExamTagsRejected | client/src/pages/UploadNotes.jsx:43 | any non-empty selection sent as JSON makes the exam-tag cast fail on the server, so the upload is refused with 500 |
| Consistency.OneJsonTagRejected | client/src/pages/UploadNotes.jsx:43 | the selection `["midterm"]` is refused |
| Consistency.PayloadAsWritten | client/src/pages/UploadNotes.jsx:36-48 | the body the page as written builds: the exam tags as `JSON.stringify` text when some are selected, every other key as in the corrected body |
| Consistency.AsWrittenUploadRejected | client/src/pages/UploadNotes.jsx:42-44 | every body the page as written sends with a non-empty selection fails the server's cast, so no note is built and the upload is answered with 500 |

## Left out

- **Not part of this model.**
  - server/middleware/auth.js and server/middleware/upload.js. `protect` is modelled as "the request carries an account" (`Routes.Caller`). `authorize` is modelled as role membership, and `upload.single` as "the file is taken".
  - The multer file filter and the size limit.
- **JWT.** Signing, verifying and expiry (`30d`) are abstracted as the constructor `Token(userId)`.
- **bcrypt.** The cost factor and salting are abstracted as the injective `Digest(preimage)`.
- **I/O and concurrency.** Database connection, server wiring and static files (server/server.js, server/config/db.js) are left out. So are read-modify-write races between requests; every handler runs atomically.
- **Populate.** `populate` only embeds referenced records in replies, and is left out. `getFavorites` (userController.js:90-100) is such a read and is left out.
- **Timestamps.**
  - `updatedAt` and `lastActive` are not modelled.
  - `createdAt` is the parameter `now` of the creating call.
  - `Date` parsing and comparisons are integers.
- **Numbers.**
  - Ratings and averages are `real`. The model does not capture IEEE rounding of `sum / length`.
  - Every JavaScript number field is `int`.
  - `semester` in a request body is a number or absent.
- NotesController.UploadSemester: Mongoose casts the form's semester text with `Number`, and the model reads it with `ParseInt` instead. So `"3x"`, which `Number` rejects, reads as 3, and `"3.5"` or `"1e1"` read as 3 and 1.
- **The subject filter of `getAllNotes`.** `new RegExp(subject, 'i')` is modelled as case-insensitive substring search of the literal text, folded with `Strings.ToLower`. Regular-expression metacharacters and invalid patterns are not modelled. The same goes for the client's search.
- Strings.ToLower: it lowers the ASCII, Latin-1 and basic Cyrillic capitals only. The other case mappings of Unicode are not modelled: the rest of Latin, Greek with its final-sigma rule, `İ`, which lowers to two characters, and the other scripts. For text with such letters, the model's email setter, the subject filter and the search differ from the source. For example, a sign-up as `ΑΝΝΑ@x.org` and a login as `αννα@x.org` match in the source but not in the model. Route matching is unaffected, because route literals are ASCII.
- **Identifiers.** Record identifiers are natural numbers (`Common.Id`). A `:id` that is not a well-formed ObjectId makes `findById` throw a cast error, to which the handlers answer 500 rather than 404. That happens, for example, at notesController.js:72, 88 and 108, commentController.js:14, and announcementController.js:80, 98 and 136. The model's handlers take an `Id`, so this 500 path is not modelled.
- **Announcement filters.** A department filter that is not a department name matches only `All` announcements. The server does not cast the filter, and the model says the same.
- **Sort order.**
  - Mongo's order among equal sort keys is unspecified, and the model promises nothing about ties.
  - The natural order of a collection is taken to be ascending identifiers.
- ViewNotes.SortByKey: the model proves order and permutation but not stability. It is an insertion sort, while `Array.prototype.sort` is stable.
- ViewNotes.FilteredAndSorted: `localeCompare` is abstracted as a ranking function `titleRank` on titles. The `|| 0` for a missing `averageRating` is not needed, because every note in the model has one.
- **The download in the browser.** Blob URLs, the anchor element and the `res.download` stream are left out. The model keeps only the file name the header carries and whether the file is in the upload directory. The RFC 6266 `filename*` parameter and quoted-pair escapes are not modelled.
- NotesController.Extname: it follows `path.extname` for names without directory parts only.
- **Client state wiring.** Toasts, `window.confirm`, the network reply and the file-input reset (UploadNotes.jsx:59-60) are covered as follows:
  - the confirmation and the server's answer are parameters of `HandleDelete` and `HandleSubmit`;
  - the toast is a returned string.
- UploadNotes.Payload: the multipart body is a map from keys to parts. The order of `append` calls is not modelled; no key is appended twice.
- UploadNotes.HandleSubmit: it sends the exam tags as comma-separated text, which the server reads; the page as written sends JSON (see Findings). This is the corrected behaviour.
- **Presentational pages.** Analytics.jsx and the other display-only pages are outside the core. So are StarRating.jsx, Toast.jsx timers and AuthContext.jsx persistence.
- **Sign-in routes and the favorites route.**
  - The authentication routes (`/api/auth`) mount the two handlers without middleware. They are not modelled as a route table.
  - The user routes require an account for every path (userRoutes.js:14). That is the precondition `actor in db.users` of the user-controller methods.
  - api.js:45 targets `/notes/:id/favorite`, which no router defines. Only the working path is modelled, through `UserController.ToggleFavorite`.
- **Schema validation errors.** They are modelled as a 500 reply with a fixed message, not Mongoose's generated text.

## Findings

| source | as written | input that shows it | evidently intended | confidence | as-written member | corrected member |
|---|---|---|---|---|---|---|
| client/src/pages/UploadNotes.jsx:43 with server/controllers/notesController.js:26 | the page sends the selected exam tags as `JSON.stringify(examTags)`, and the server splits that text at commas and casts each trimmed piece to the exam-tag enum | selecting only `midterm` sends `["midterm"]`; its one piece keeps the brackets and quotes, the cast fails, and the upload is answered with 500 | the selected tags reach the note | not executed | Consistency.AsWrittenUploadRejected | Consistency.ExamTagsTextAccepted |
