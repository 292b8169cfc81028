/** Values shared by the whole model: identifiers, roles, optional values,
    HTTP replies, and the list operations (`filter`, `indexOf`) that the
    controllers and the client pages use. */
module Common {

  /** A database identifier (a Mongo ObjectId). Identifiers are drawn from
      a counter, so ascending ids are also insertion order. */
  type Id = nat

  /** A value that may be absent (`undefined`/`null` in the source). */
  datatype Option<T> = None | Some(value: T)

  /** The three roles of a user account. */
  datatype Role = Student | Teacher | Admin

  /** The roles that manage content: teachers and admins. */
  const STAFF: set<Role> := {Teacher, Admin}

  /** An HTTP reply: a success status with a body, or an error status with
      the message the handler sends. */
  datatype Reply<T> = Ok(status: int, value: T) | Err(status: int, message: string)

  const OK: int := 200
  const CREATED: int := 201
  const BAD_REQUEST: int := 400
  const UNAUTHORIZED: int := 401
  const FORBIDDEN: int := 403
  const NOT_FOUND: int := 404
  const SERVER_ERROR: int := 500

  /** The departments of the college, as the user and note schemas list
      them. */
  datatype Department = CSE | ECE | Mechanical | Civil | IT | EEE | Chemical | Biotechnology | Other

  function DepartmentName(d: Department): string
  {
    match d
    case CSE => "CSE"
    case ECE => "ECE"
    case Mechanical => "Mechanical"
    case Civil => "Civil"
    case IT => "IT"
    case EEE => "EEE"
    case Chemical => "Chemical"
    case Biotechnology => "Biotechnology"
    case Other => "Other"
  }

  /** The enum check of a department field: a name outside the list is
      rejected. */
  function ParseDepartment(s: string): (r: Option<Department>)
    ensures r.Some? ==> DepartmentName(r.value) == s
    ensures forall d: Department :: DepartmentName(d) == s ==> r == Some(d)
  {
    if s == "CSE" then Some(CSE)
    else if s == "ECE" then Some(ECE)
    else if s == "Mechanical" then Some(Mechanical)
    else if s == "Civil" then Some(Civil)
    else if s == "IT" then Some(IT)
    else if s == "EEE" then Some(EEE)
    else if s == "Chemical" then Some(Chemical)
    else if s == "Biotechnology" then Some(Biotechnology)
    else if s == "Other" then Some(Other)
    else None
  }

  /** JavaScript truthiness of an optional string: present and non-empty. */
  predicate Truthy(s: Option<string>)
  {
    s.Some? && s.value != ""
  }

  /** `a || b` for optional strings. */
  function OrElse(a: Option<string>, b: string): (r: string)
    ensures Truthy(a) ==> r == a.value
    ensures !Truthy(a) ==> r == b
  {
    if Truthy(a) then a.value else b
  }

  /** The role names as the source spells them. */
  function RoleName(r: Role): string
  {
    match r
    case Student => "student"
    case Teacher => "teacher"
    case Admin => "admin"
  }

  /** Reads a role name; anything outside the enum is rejected. */
  function ParseRole(s: string): (r: Option<Role>)
    ensures r.Some? ==> RoleName(r.value) == s
    ensures forall x: Role :: RoleName(x) == s ==> r == Some(x)
  {
    if s == "student" then Some(Student)
    else if s == "teacher" then Some(Teacher)
    else if s == "admin" then Some(Admin)
    else None
  }

  /** No element occurs twice. */
  ghost predicate NoDup<T>(s: seq<T>)
  {
    forall i, j :: 0 <= i < j < |s| ==> s[i] != s[j]
  }

  /** `a` is obtained from `b` by deleting elements (order kept). */
  predicate IsSubseq<T(==)>(a: seq<T>, b: seq<T>)
    decreases |b|
  {
    if a == [] then true
    else if b == [] then false
    else if a[0] == b[0] then IsSubseq(a[1..], b[1..])
    else IsSubseq(a, b[1..])
  }

  /** Number of occurrences of `x` in `s`. */
  function Count<T(==)>(s: seq<T>, x: T): nat
  {
    if s == [] then 0 else (if s[0] == x then 1 else 0) + Count(s[1..], x)
  }

  /** `Array.prototype.filter`: the elements satisfying `p`, in order. */
  function Filter<T>(s: seq<T>, p: T -> bool): (r: seq<T>)
    ensures |r| <= |s|
    ensures forall i :: 0 <= i < |r| ==> r[i] in s && p(r[i])
    ensures forall i :: 0 <= i < |s| && p(s[i]) ==> s[i] in r
  {
    if s == [] then []
    else if p(s[0]) then [s[0]] + Filter(s[1..], p)
    else Filter(s[1..], p)
  }

  /** Filtering keeps the relative order of what it keeps. */
  lemma {:induction false} FilterIsSubseq<T>(s: seq<T>, p: T -> bool)
    ensures IsSubseq(Filter(s, p), s)
  {
    if s != [] {
      FilterIsSubseq(s[1..], p);
    }
  }

  /** Two filters in a row are one filter by the conjunction. */
  lemma {:induction false} FilterFilter<T>(s: seq<T>, p: T -> bool, q: T -> bool)
    ensures Filter(Filter(s, p), q) == Filter(s, x => p(x) && q(x))
  {
    if s != [] {
      FilterFilter(s[1..], p, q);
    }
  }

  /** A filter whose predicate holds everywhere changes nothing. */
  lemma {:induction false} FilterAll<T>(s: seq<T>, p: T -> bool)
    requires forall i :: 0 <= i < |s| ==> p(s[i])
    ensures Filter(s, p) == s
  {
    if s != [] {
      FilterAll(s[1..], p);
    }
  }

  /** Filtering keeps every occurrence of what it keeps and none of the
      rest. */
  lemma {:induction false} FilterCount<T>(s: seq<T>, p: T -> bool, x: T)
    ensures Count(Filter(s, p), x) == if p(x) then Count(s, x) else 0
  {
    if s != [] {
      FilterCount(s[1..], p, x);
      if p(s[0]) {
        assert (Filter(s, p))[1..] == Filter(s[1..], p);
      }
    }
  }

  /** Filtering a concatenation filters each part. */
  lemma {:induction false} FilterAppend<T>(s: seq<T>, t: seq<T>, p: T -> bool)
    ensures Filter(s + t, p) == Filter(s, p) + Filter(t, p)
  {
    if s == [] {
      assert s + t == t;
    } else {
      assert (s + t)[0] == s[0];
      assert (s + t)[1..] == s[1..] + t;
      FilterAppend(s[1..], t, p);
    }
  }

  /** `Array.prototype.indexOf`: the first index holding `x`. */
  function IndexOf<T(==)>(s: seq<T>, x: T): (r: Option<nat>)
    ensures r.None? <==> x !in s
    ensures r.Some? ==> r.value < |s| && s[r.value] == x && x !in s[..r.value]
  {
    if s == [] then None
    else if s[0] == x then Some(0)
    else match IndexOf(s[1..], x)
      case None => None
      case Some(i) => assert s[..i + 1] == [s[0]] + s[1..][..i]; Some(i + 1)
  }

  /** `splice(i, 1)`: `s` without its element at `i`. */
  function RemoveAt<T>(s: seq<T>, i: nat): (r: seq<T>)
    requires i < |s|
    ensures |r| == |s| - 1
    ensures forall j :: 0 <= j < i ==> r[j] == s[j]
    ensures forall j :: i <= j < |r| ==> r[j] == s[j + 1]
  {
    s[..i] + s[i + 1..]
  }

  lemma {:induction false} CountAppend<T>(s: seq<T>, t: seq<T>, x: T)
    ensures Count(s + t, x) == Count(s, x) + Count(t, x)
  {
    if s != [] {
      assert (s + t)[0] == s[0];
      assert (s + t)[1..] == s[1..] + t;
      CountAppend(s[1..], t, x);
    } else {
      assert s + t == t;
    }
  }

  lemma {:induction false} CountDistinct<T>(s: seq<T>, x: T)
    requires NoDup(s)
    ensures Count(s, x) == if x in s then 1 else 0
  {
    if s != [] {
      assert NoDup(s[1..]);
      CountDistinct(s[1..], x);
      if s[0] == x {
        assert x !in s[1..];
      }
    }
  }
}
