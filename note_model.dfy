/** The note record with its embedded comments and ratings, the
    constraints the schema checks on save, and `calculateAverageRating`. */
module NoteSchema {
  import opened Common

  /** An embedded comment; `id` is the sub-document's own identifier. */
  datatype Comment = Comment(id: Id, user: Id, text: string, createdAt: int)

  /** An embedded rating of one user. */
  datatype Rating = Rating(user: Id, value: real)

  /** The exam tags a note may carry. */
  datatype ExamTag = Midterm | Final | QuickRevision | Important

  function ExamTagName(t: ExamTag): string
  {
    match t
    case Midterm => "midterm"
    case Final => "final"
    case QuickRevision => "quick-revision"
    case Important => "important"
  }

  /** The enum check of one exam tag. */
  function ParseExamTag(s: string): (r: Option<ExamTag>)
    ensures r.Some? ==> ExamTagName(r.value) == s
    ensures forall t: ExamTag :: ExamTagName(t) == s ==> r == Some(t)
  {
    if s == "midterm" then Some(Midterm)
    else if s == "final" then Some(Final)
    else if s == "quick-revision" then Some(QuickRevision)
    else if s == "important" then Some(Important)
    else None
  }

  /** The enum check of a list of exam tags: it fails as soon as one tag is
      outside the enum, and otherwise keeps the tags in order. */
  function ParseExamTags(ss: seq<string>): (r: Option<seq<ExamTag>>)
    ensures r.Some? <==> forall i :: 0 <= i < |ss| ==> ParseExamTag(ss[i]).Some?
    ensures r.Some? ==> |r.value| == |ss|
    ensures r.Some? ==> forall i :: 0 <= i < |ss| ==> ExamTagName(r.value[i]) == ss[i]
  {
    if ss == [] then Some([])
    else match (ParseExamTag(ss[0]), ParseExamTags(ss[1..]))
      case (Some(t), Some(ts)) => Some([t] + ts)
      case (None, _) => None
      case (_, None) =>
        assert forall i :: 0 <= i < |ss[1..]| ==> ss[1..][i] == ss[i + 1];
        None
  }

  const DEFAULT_DEPARTMENT: Department := Other
  const DEFAULT_CATEGORY: string := "General"

  datatype Note = Note(
    id: Id,
    title: string,
    subject: string,
    department: Department,
    semester: int,
    isImportantForExam: bool,
    examTags: seq<ExamTag>,
    syllabusTopics: seq<string>,
    syllabusUnit: Option<int>,
    category: string,
    tags: seq<string>,
    fileURL: string,
    fileSize: Option<int>,
    uploadedBy: Id,
    downloads: int,
    views: int,
    comments: seq<Comment>,
    ratings: seq<Rating>,
    averageRating: real,
    isOfflineAvailable: bool,
    createdAt: int)

  predicate RatingInRange(v: real)
  {
    1.0 <= v <= 5.0
  }

  predicate RatingsInRange(rs: seq<Rating>)
  {
    forall i :: 0 <= i < |rs| ==> RatingInRange(rs[i].value)
  }

  /** The constraints the schema checks whenever a note is saved: required
      strings present, numbers inside their bounds, and the same for every
      embedded comment and rating (the enums are checked when the fields
      are cast, see `ParseDepartment` and `ParseExamTags`). */
  predicate ValidNote(n: Note)
  {
    && n.title != "" && n.subject != "" && n.fileURL != ""
    && 1 <= n.semester <= 8
    && (n.syllabusUnit.Some? ==> 1 <= n.syllabusUnit.value <= 10)
    && (forall i :: 0 <= i < |n.comments| ==> n.comments[i].text != "")
    && RatingsInRange(n.ratings)
  }

  /** No user has rated twice. */
  ghost predicate OneRatingPerUser(rs: seq<Rating>)
  {
    forall i, j :: 0 <= i < j < |rs| ==> rs[i].user != rs[j].user
  }

  /** The sum the reduction over the ratings computes. */
  function RatingSum(rs: seq<Rating>): real
  {
    if rs == [] then 0.0 else rs[0].value + RatingSum(rs[1..])
  }

  /** The arithmetic mean of the ratings, and 0 when there are none. */
  function Mean(rs: seq<Rating>): (m: real)
    ensures |rs| == 0 ==> m == 0.0
    ensures |rs| > 0 ==> m * (|rs| as real) == RatingSum(rs)
  {
    if |rs| == 0 then 0.0 else RatingSum(rs) / (|rs| as real)
  }

  /** Ratings between 1 and 5 sum to between `|rs|` and `5 |rs|`. */
  lemma {:induction false} RatingSumBounds(rs: seq<Rating>)
    requires RatingsInRange(rs)
    ensures |rs| as real <= RatingSum(rs) <= 5.0 * (|rs| as real)
  {
    if rs != [] {
      assert RatingsInRange(rs[1..]) by {
        forall i | 0 <= i < |rs[1..]| ensures RatingInRange(rs[1..][i].value) {
          assert rs[1..][i] == rs[i + 1];
        }
      }
      RatingSumBounds(rs[1..]);
    }
  }

  /** The mean of in-range ratings is itself a rating value. */
  lemma MeanInRange(rs: seq<Rating>)
    requires RatingsInRange(rs) && |rs| > 0
    ensures RatingInRange(Mean(rs))
  {
    RatingSumBounds(rs);
    var n := |rs| as real;
    var m := Mean(rs);
    assert m * n == RatingSum(rs);
    PositiveFactor(m - 1.0, n);
    PositiveFactor(5.0 - m, n);
  }

  /** A product with a positive factor that is not negative has a
      non-negative other factor. */
  lemma PositiveFactor(x: real, n: real)
    requires n > 0.0 && x * n >= 0.0
    ensures x >= 0.0
  {
  }

  /** `calculateAverageRating`: only `averageRating` changes, and it becomes
      the mean of the ratings (0 for none), which lies between 1 and 5
      whenever there is at least one valid rating. */
  function CalculateAverageRating(n: Note): (r: Note)
    ensures r.(averageRating := n.averageRating) == n
    ensures r.averageRating == Mean(r.ratings)
    ensures |n.ratings| == 0 ==> r.averageRating == 0.0
    ensures |n.ratings| > 0 ==> r.averageRating * (|n.ratings| as real) == RatingSum(n.ratings)
    ensures RatingsInRange(n.ratings) && |n.ratings| > 0 ==> RatingInRange(r.averageRating)
  {
    if RatingsInRange(n.ratings) && |n.ratings| > 0 then MeanInRange(n.ratings); n.(averageRating := Mean(n.ratings))
    else n.(averageRating := Mean(n.ratings))
  }

  /** No two comments of a note share an identifier. */
  ghost predicate CommentIdsDistinct(cs: seq<Comment>)
  {
    forall i, j :: 0 <= i < j < |cs| ==> cs[i].id != cs[j].id
  }

  /** What the application keeps true of every stored note on top of the
      schema: one rating per user, an average that matches the ratings and
      comments that can be told apart by identifier. */
  ghost predicate NoteInvariant(n: Note)
  {
    && ValidNote(n)
    && OneRatingPerUser(n.ratings)
    && n.averageRating == Mean(n.ratings)
    && CommentIdsDistinct(n.comments)
  }

  /** A note without comments and ratings, with average 0, keeps the
      invariant as soon as it passes the schema. */
  lemma FreshNoteInvariant(n: Note)
    requires n.comments == [] && n.ratings == [] && n.averageRating == 0.0 && ValidNote(n)
    ensures NoteInvariant(n)
  {
  }
}
