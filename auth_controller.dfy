/** Sign-up and login. The token is an abstract value built from the
    user's identifier (`generateToken`); hashing goes through the schema's
    `Hash` and `ComparePassword`. */
module AuthController {
  import opened Common
  import opened Strings
  import opened Query
  import opened UserSchema
  import opened Store

  /** A signed token carrying a user identifier. */
  datatype Token = Token(userId: Id)

  /** `generateToken(id)`. */
  function GenerateToken(id: Id): (t: Token)
    ensures t.userId == id
  {
    Token(id)
  }

  /** Signing is injective: different users never share a token. */
  lemma TokensDistinct(a: Id, b: Id)
    requires a != b
    ensures GenerateToken(a) != GenerateToken(b)
  {
  }

  /* ---------------------------------------------------------------- */
  /* findOne({ email })                                                */

  /** `User.findOne({ email: e })`: the first user in natural order whose
      stored email is `e`. */
  function FindByEmail(users: map<Id, User>, e: string): (r: Option<Id>)
    ensures r.Some? ==> r.value in users && users[r.value].email == e
    ensures r.None? <==> forall k :: k in users ==> users[k].email != e
  {
    var matching := set k | k in users && users[k].email == e;
    assert forall k :: k in users ==> (k in matching <==> users[k].email == e);
    if matching == {} then None
    else
      var k := MinId(matching);
      assert k in matching;
      Some(k)
  }

  /** With unique emails the lookup finds the one user holding the email. */
  lemma FindByEmailUnique(users: map<Id, User>, k: Id)
    requires EmailsUnique(users) && k in users
    ensures FindByEmail(users, users[k].email) == Some(k)
  {
  }

  /* ---------------------------------------------------------------- */
  /* signup                                                            */

  /** The body of POST /api/auth/signup. */
  datatype SignupForm = SignupForm(
    name: Option<string>,
    email: Option<string>,
    password: Option<string>,
    role: Option<string>,
    department: Option<string>,
    semester: Option<int>,
    rollNumber: Option<string>)

  predicate SignupComplete(f: SignupForm)
  {
    Truthy(f.name) && Truthy(f.email) && Truthy(f.password)
  }

  /** `role || 'student'` before the enum check. */
  function SignupRole(role: Option<string>): (r: Option<Role>)
    ensures !Truthy(role) ==> r == Some(DEFAULT_ROLE)
    ensures Truthy(role) ==> r == ParseRole(role.value)
  {
    if Truthy(role) then ParseRole(role.value) else Some(DEFAULT_ROLE)
  }

  /** The department of the form, absent when not sent, and the enum
      check when sent. */
  function SignupDepartment(department: Option<string>): (r: Option<Option<Department>>)
    ensures department.None? ==> r == Some(None)
    ensures department.Some? && ParseDepartment(department.value).None? ==> r == None
    ensures department.Some? && ParseDepartment(department.value).Some? ==>
              r == Some(ParseDepartment(department.value))
  {
    match department
    case None => Some(None)
    case Some(d) =>
      match ParseDepartment(d)
      case None => None
      case Some(x) => Some(Some(x))
  }

  /** The record `User.create` builds from a complete sign-up form; `None`
      when the role or the department is outside its enum. */
  function NewAccount(id: Id, f: SignupForm, now: int): (r: Option<User>)
    requires SignupComplete(f)
    ensures r.None? <==> SignupRole(f.role).None? || SignupDepartment(f.department).None?
    ensures r.Some? ==> r.value.id == id && r.value.email == NormalizeEmail(f.email.value)
    ensures r.Some? ==> r.value.role == (if Truthy(f.role) then ParseRole(f.role.value).value else Student)
    ensures r.Some? ==> ComparePassword(f.password.value, r.value.password)
  {
    match (SignupRole(f.role), SignupDepartment(f.department))
    case (Some(role), Some(department)) =>
      Some(NewUser(id, f.name.value, f.email.value, f.password.value, role,
                   department, f.semester, f.rollNumber, now))
    case _ => None
  }

  /** The reply of a sign-up: the new record's public fields and a token,
      without the password. */
  datatype SignupReply = SignupReply(
    id: Id, name: string, email: string, role: Role, department: Option<Department>,
    semester: Option<int>, rollNumber: Option<string>, isVerified: bool, token: Token)

  function SignupReplyOf(u: User): (r: SignupReply)
    ensures r.id == u.id && r.token == GenerateToken(u.id)
  {
    SignupReply(u.id, u.name, u.email, u.role, u.department, u.semester, u.rollNumber,
                u.isVerified, GenerateToken(u.id))
  }

  /** The built record passes the schema, the password length included. */
  predicate AccountAccepted(created: Option<User>, password: string)
  {
    created.Some? && ValidUser(created.value) && PasswordLongEnough(password)
  }

  /** POST /api/auth/signup. The lookup of the email applies the schema's
      setters to the query value, so it finds an existing account whatever
      the case and surrounding white space of the form's email. */
  method Signup(db: Db, f: SignupForm, now: int) returns (reply: Reply<SignupReply>)
    requires db.Valid()
    modifies db
    ensures db.Valid()
    ensures db.notes == old(db.notes) && db.announcements == old(db.announcements)
    ensures db.files == old(db.files)
    ensures !SignupComplete(f) ==>
      && reply == Err(BAD_REQUEST, "Please provide name, email and password")
      && db.users == old(db.users) && db.nextId == old(db.nextId)
    ensures SignupComplete(f) && FindByEmail(old(db.users), NormalizeEmail(f.email.value)).Some? ==>
      && reply == Err(BAD_REQUEST, "Email already registered")
      && db.users == old(db.users) && db.nextId == old(db.nextId)
    ensures SignupComplete(f) && FindByEmail(old(db.users), NormalizeEmail(f.email.value)).None? ==>
      var created := NewAccount(old(db.nextId), f, now);
      if AccountAccepted(created, f.password.value) then
        && db.users == old(db.users)[old(db.nextId) := created.value]
        && db.nextId == old(db.nextId) + 1
        && reply == Ok(CREATED, SignupReplyOf(created.value))
      else
        && reply.Err? && reply.status == SERVER_ERROR
        && db.users == old(db.users) && db.nextId == old(db.nextId)
  {
    if !SignupComplete(f) {
      return Err(BAD_REQUEST, "Please provide name, email and password");
    }
    var existing := FindByEmail(db.users, NormalizeEmail(f.email.value));
    if existing.Some? {
      return Err(BAD_REQUEST, "Email already registered");
    }
    var created := NewAccount(db.nextId, f, now);
    reply := StoreAccount(db, created, f.password.value);
  }

  /** The part of the sign-up after the record is built: validate, store,
      reply. */
  method StoreAccount(db: Db, created: Option<User>, password: string)
    returns (reply: Reply<SignupReply>)
    requires db.Valid()
    requires created.Some? ==> created.value.id == db.nextId
    requires created.Some? ==> forall k :: k in db.users ==> db.users[k].email != created.value.email
    modifies db
    ensures db.Valid()
    ensures db.notes == old(db.notes) && db.announcements == old(db.announcements)
    ensures db.files == old(db.files)
    ensures AccountAccepted(created, password) ==>
      && db.users == old(db.users)[old(db.nextId) := created.value]
      && db.nextId == old(db.nextId) + 1
      && reply == Ok(CREATED, SignupReplyOf(created.value))
    ensures !AccountAccepted(created, password) ==>
      && reply == Err(SERVER_ERROR, "Validation failed")
      && db.users == old(db.users) && db.nextId == old(db.nextId)
  {
    if !AccountAccepted(created, password) {
      return Err(SERVER_ERROR, "Validation failed");
    }
    db.CreateUser(created.value);
    reply := Ok(CREATED, SignupReplyOf(created.value));
  }

  /** With no role in the form the account is a student's. */
  lemma SignupDefaultRole(id: Id, f: SignupForm, now: int)
    requires SignupComplete(f) && !Truthy(f.role)
    requires NewAccount(id, f, now).Some?
    ensures NewAccount(id, f, now).value.role == Student
  {
  }

  /* ---------------------------------------------------------------- */
  /* login                                                             */

  /** The reply of a login: the public fields of the account and a token. */
  datatype LoginReply = LoginReply(
    id: Id, name: string, email: string, role: Role, department: Option<Department>,
    semester: Option<int>, rollNumber: Option<string>, isVerified: bool,
    bio: string, avatar: string, points: int, badges: seq<string>, token: Token)

  const LOGIN_FAILED: string := "Invalid email or password"

  /** POST /api/auth/login. An unknown email and a wrong password get the
      same reply. */
  function Login(users: map<Id, User>, email: Option<string>, password: Option<string>)
    : (r: Reply<LoginReply>)
    ensures !Truthy(email) || !Truthy(password) ==>
              r == Err(BAD_REQUEST, "Please provide email and password")
    ensures r.Ok? ==> r.status == OK && r.value.id in users && r.value.token == GenerateToken(r.value.id)
    ensures r.Ok? ==> users[r.value.id].email == NormalizeEmail(email.value)
                      && ComparePassword(password.value, users[r.value.id].password)
    ensures r.Err? && Truthy(email) && Truthy(password) ==> r == Err(UNAUTHORIZED, LOGIN_FAILED)
  {
    if !Truthy(email) || !Truthy(password) then
      Err(BAD_REQUEST, "Please provide email and password")
    else match FindByEmail(users, NormalizeEmail(email.value))
      case None => Err(UNAUTHORIZED, LOGIN_FAILED)
      case Some(k) =>
        var u := users[k];
        if !ComparePassword(password.value, u.password) then Err(UNAUTHORIZED, LOGIN_FAILED)
        else Ok(OK, LoginReply(k, u.name, u.email, u.role, u.department, u.semester, u.rollNumber,
                               u.isVerified, u.bio, u.avatar, u.points, u.badges, GenerateToken(k)))
  }

  /** A login succeeds exactly when some account holds the normalised
      email and its password matches; otherwise the caller cannot tell an
      unknown email from a wrong password. */
  lemma LoginExact(users: map<Id, User>, email: string, password: string)
    requires EmailsUnique(users) && email != "" && password != ""
    ensures Login(users, Some(email), Some(password)).Ok? <==>
      exists k :: k in users && users[k].email == NormalizeEmail(email)
                  && ComparePassword(password, users[k].password)
    ensures Login(users, Some(email), Some(password)).Err? ==>
      Login(users, Some(email), Some(password)) == Err(UNAUTHORIZED, LOGIN_FAILED)
  {
    var r := Login(users, Some(email), Some(password));
    if exists k :: k in users && users[k].email == NormalizeEmail(email)
                   && ComparePassword(password, users[k].password) {
      var k :| k in users && users[k].email == NormalizeEmail(email)
               && ComparePassword(password, users[k].password);
      FindByEmailUnique(users, k);
    }
  }

  /** Whoever signed up can log in with the same email (in any case, with
      any surrounding white space) and password, and gets their own
      account's token. */
  lemma LoginAfterSignup(users: map<Id, User>, id: Id, f: SignupForm, now: int, email: string)
    requires SignupComplete(f) && email != ""
    requires NormalizeEmail(email) == NormalizeEmail(f.email.value)
    requires NewAccount(id, f, now).Some?
    requires var u := NewAccount(id, f, now).value; EmailsUnique(users[id := u])
    ensures var u := NewAccount(id, f, now).value;
      var r := Login(users[id := u], Some(email), f.password);
      r.Ok? && r.value.id == id && r.value.token == GenerateToken(id)
  {
    var u := NewAccount(id, f, now).value;
    FindByEmailUnique(users[id := u], id);
  }
}
