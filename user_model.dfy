/** The user record: its fields, bounds and defaults, the password digest
    and the hook that hashes a newly set password on save. */
module UserSchema {
  import opened Common
  import opened Strings

  /** The stored secret. `bcrypt.hash` is modelled as an uninterpreted,
      injective function: a free constructor over the plain text, which
      the model never reads except through `ComparePassword`. */
  datatype Digest = Digest(preimage: string)

  function Hash(password: string): Digest
  {
    Digest(password)
  }

  /** `comparePassword`: the candidate matches the stored digest. */
  predicate ComparePassword(candidate: string, stored: Digest)
  {
    Hash(candidate) == stored
  }

  /** Comparing against the digest of `password` succeeds for `password`
      and for nothing else. */
  lemma {:induction false} ComparePasswordExact(candidate: string, password: string)
    ensures ComparePassword(candidate, Hash(password)) <==> candidate == password
  {
    if ComparePassword(candidate, Hash(password)) {
      assert Hash(candidate).preimage == Hash(password).preimage;
    }
  }

  const MIN_PASSWORD_LENGTH: nat := 6
  const MAX_BIO_LENGTH: nat := 500
  const DEFAULT_ROLE: Role := Student

  datatype User = User(
    id: Id,
    name: string,
    email: string,
    password: Digest,
    role: Role,
    department: Option<Department>,
    semester: Option<int>,
    rollNumber: Option<string>,
    isVerified: bool,
    bio: string,
    avatar: string,
    favorites: seq<Id>,
    points: int,
    badges: seq<string>,
    streak: int,
    createdAt: int)

  /** The schema's setters for `email`: lower-cased and trimmed. */
  function NormalizeEmail(email: string): string
  {
    Trim(ToLower(email))
  }

  /** The constraints the schema checks on every save. Lengths are counted
      in UTF-16 code units, as `maxLength` and `minLength` count them; the
      department enum is checked when the field is cast (`ParseDepartment`). */
  predicate ValidUser(u: User)
  {
    && u.name != ""
    && u.email != ""
    && (u.semester.Some? ==> 1 <= u.semester.value <= 8)
    && Utf16Length(u.bio) <= MAX_BIO_LENGTH
  }

  /** The length the schema demands of a plain-text password, checked on
      save before the hook hashes it. */
  predicate PasswordLongEnough(password: string)
  {
    Utf16Length(password) >= MIN_PASSWORD_LENGTH
  }

  /** The pre-save hook: the digest is recomputed only when a new plain
      password was set (`newPassword`); otherwise the stored digest is
      kept as it is and never hashed twice. */
  function PreSave(stored: Digest, newPassword: Option<string>): (d: Digest)
    ensures newPassword.None? ==> d == stored
    ensures newPassword.Some? ==> forall c :: ComparePassword(c, d) <==> c == newPassword.value
  {
    match newPassword
    case None => stored
    case Some(p) => Hash(p)
  }

  /** A fresh user record as `User.create` builds it from the sign-up
      fields: setters applied, password hashed, every default in place. */
  function NewUser(id: Id, name: string, email: string, password: string, role: Role,
                   department: Option<Department>, semester: Option<int>,
                   rollNumber: Option<string>, now: int): (u: User)
    ensures u.id == id && u.role == role && u.email == NormalizeEmail(email)
    ensures u.name == Trim(name) && ComparePassword(password, u.password)
    ensures !u.isVerified && u.bio == "" && u.avatar == "" && u.favorites == []
    ensures u.points == 0 && u.streak == 0 && u.badges == []
  {
    User(id, Trim(name), NormalizeEmail(email), PreSave(Digest(""), Some(password)), role,
         department, semester,
         match rollNumber case Some(r) => Some(Trim(r)) case None => None,
         false, "", "", [], 0, [], 0, now)
  }

  /** What a read returns: every field but the password (`select: false`). */
  datatype PublicUser = PublicUser(
    id: Id,
    name: string,
    email: string,
    role: Role,
    department: Option<Department>,
    semester: Option<int>,
    rollNumber: Option<string>,
    isVerified: bool,
    bio: string,
    avatar: string,
    favorites: seq<Id>,
    points: int,
    badges: seq<string>,
    streak: int,
    createdAt: int)

  /** The record without its password: every other field as stored. */
  function WithoutPassword(u: User): (p: PublicUser)
    ensures p.id == u.id && p.name == u.name && p.email == u.email && p.role == u.role
    ensures p.department == u.department && p.semester == u.semester
    ensures p.rollNumber == u.rollNumber && p.isVerified == u.isVerified
    ensures p.bio == u.bio && p.avatar == u.avatar && p.favorites == u.favorites
    ensures p.points == u.points && p.badges == u.badges && p.streak == u.streak
    ensures p.createdAt == u.createdAt
  {
    PublicUser(u.id, u.name, u.email, u.role, u.department, u.semester, u.rollNumber,
               u.isVerified, u.bio, u.avatar, u.favorites, u.points, u.badges, u.streak,
               u.createdAt)
  }

  /** Two records read the same exactly when they differ at most in their
      password: the view drops the password and nothing else. */
  lemma {:induction false} WithoutPasswordExact(u: User, v: User)
    ensures WithoutPassword(u) == WithoutPassword(v) <==> u.(password := v.password) == v
  {
    if WithoutPassword(u) == WithoutPassword(v) {
      var p, q := WithoutPassword(u), WithoutPassword(v);
      assert p.id == q.id && p.name == q.name && p.email == q.email && p.role == q.role;
      assert p.createdAt == q.createdAt;
    }
  }
}
