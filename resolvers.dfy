/** The GraphQL resolvers (backend/src/resolvers.ts). Queries are pure reads
    of the tables; mutations are methods of `Database`, the shared store,
    each guarded by the checks the resolver performs before it writes. */
module Resolvers {
  import opened Wrappers
  import opened Seqs
  import opened Schema
  import opened Crypto
  import opened Prisma
  import opened Auth

  /** The errors the resolvers throw. The last four come from the database
      layer, which raises them on a write that a unique index refuses (a
      taken email, a second row for a (user, course) pair), on a foreign-key
      violation when an enrollment names a missing user or course, and on the
      update or delete of a missing row. */
  datatype Error =
    | NotAuthenticated
    | InvalidCredentials
    | UserAlreadyExists
    | NotAuthorizedToEdit
    | NotAuthorizedToDelete
    | AlreadyEnrolled
    | UniqueConstraintViolation
    | ForeignKeyViolation
    | RecordToUpdateNotFound
    | RecordNotFound

  /** The message each error carries to the client. */
  function Message(e: Error): string {
    match e
    case NotAuthenticated => "Not authenticated"
    case InvalidCredentials => "Invalid credentials"
    case UserAlreadyExists => "User already exists"
    case NotAuthorizedToEdit => "Not authorized to edit this course"
    case NotAuthorizedToDelete => "Not authorized to delete this course"
    case AlreadyEnrolled => "Already enrolled in this course"
    case UniqueConstraintViolation => "Unique constraint failed"
    case ForeignKeyViolation => "Foreign key constraint failed"
    case RecordToUpdateNotFound => "Record to update not found."
    case RecordNotFound => "Record to delete does not exist."
  }

  /** Each error reaches the client with a message of its own, so the
      message tells the client which check failed. */
  lemma MessagesDistinct(a: Error, b: Error)
    ensures a != b ==> Message(a) != Message(b)
  {
  }

  datatype AuthPayload = AuthPayload(token: string, user: User)

  /** GraphQL `CourseInput`: every field required. */
  datatype CourseInput = CourseInput(title: string, description: string, level: CourseLevel)

  /** GraphQL `UpdateCourseInput`: every field optional; an absent field is left as it was. */
  datatype UpdateCourseInput = UpdateCourseInput(title: Option<string>, description: Option<string>, level: Option<CourseLevel>)

  /** The user the `me` query returns, together with its enrollments. */
  datatype UserWithEnrollments = UserWithEnrollments(user: User, enrollments: seq<Enrollment>)

  // Queries

  /** `courses`: every course, newest creation time first. Rows are
      stored in creation order, so the newest-first order is the reverse. */
  function CoursesNewestFirst(courses: seq<Course>): (r: seq<Course>)
    ensures multiset(r) == multiset(courses)
  {
    ReverseMultiset(courses);
    Reverse(courses)
  }

  /** Under the table invariant the `courses` query is sorted strictly newest first. */
  lemma CoursesNewestFirstSorted(courses: seq<Course>)
    requires Pairwise(courses, CreatedInOrder)
    ensures forall i, j :: 0 <= i < j < |courses| ==>
              CoursesNewestFirst(courses)[i].createdAt > CoursesNewestFirst(courses)[j].createdAt
  {
    var r := CoursesNewestFirst(courses);
    var n := |courses|;
    forall i, j | 0 <= i < j < n ensures r[i].createdAt > r[j].createdAt {
      assert r[i] == courses[n - 1 - i] && r[j] == courses[n - 1 - j];
      assert CreatedInOrder(courses[n - 1 - j], courses[n - 1 - i]);
    }
  }

  /** `me`: the signed-in user's row with its enrollments; `null` when the row is gone. */
  function Me(ctx: Context, users: seq<User>, enrollments: seq<Enrollment>): (r: Result<Option<UserWithEnrollments>, Error>)
    ensures r.Err? <==> ctx.user.None?
    ensures r.Err? ==> r.error == NotAuthenticated
    ensures r.Ok? ==> (r.value.Some? <==> exists j :: 0 <= j < |users| && users[j].id == ctx.user.value.id)
    ensures r.Ok? && r.value.Some? ==>
              r.value.value.user in users && r.value.value.user.id == ctx.user.value.id &&
              forall e :: e in r.value.value.enrollments <==> e in enrollments && e.userId == ctx.user.value.id
  {
    match ctx.user
    case None => Err(NotAuthenticated)
    case Some(u) =>
      match UserById(users, u.id)
      case None => Ok(None)
      case Some(row) => Ok(Some(UserWithEnrollments(row, EnrollmentsOfUser(enrollments, row.id))))
  }

  /** `courseEnrollments` (and the `Course.enrollments` field) lists each user
      at most once: the (user, course) uniqueness seen from one course. */
  lemma CourseEnrollmentsOnePerUser(rows: seq<Enrollment>, courseId: Id)
    requires Pairwise(rows, DistinctEnrollments)
    ensures forall i, j :: 0 <= i < j < |EnrollmentsOfCourse(rows, courseId)| ==>
              EnrollmentsOfCourse(rows, courseId)[i].userId != EnrollmentsOfCourse(rows, courseId)[j].userId
  {
    var r := EnrollmentsOfCourse(rows, courseId);
    FilterPairwise(rows, (e: Enrollment) => e.courseId == courseId, DistinctEnrollments);
    forall i, j | 0 <= i < j < |r| ensures r[i].userId != r[j].userId {
      assert r[i] in r && r[j] in r;
      assert DistinctEnrollments(r[i], r[j]);
    }
  }

  /** `userEnrollments` (and the `User.enrollments` field) lists each course
      at most once. */
  lemma UserEnrollmentsOnePerCourse(rows: seq<Enrollment>, userId: Id)
    requires Pairwise(rows, DistinctEnrollments)
    ensures forall i, j :: 0 <= i < j < |EnrollmentsOfUser(rows, userId)| ==>
              EnrollmentsOfUser(rows, userId)[i].courseId != EnrollmentsOfUser(rows, userId)[j].courseId
  {
    var r := EnrollmentsOfUser(rows, userId);
    FilterPairwise(rows, (e: Enrollment) => e.userId == userId, DistinctEnrollments);
    forall i, j | 0 <= i < j < |r| ensures r[i].courseId != r[j].courseId {
      assert r[i] in r && r[j] in r;
      assert DistinctEnrollments(r[i], r[j]);
    }
  }

  /** The `Enrollment.user` and `Enrollment.course` field resolvers look up
      the rows an enrollment refers to; under the foreign keys both are found. */
  lemma EnrollmentFieldsResolve(t: Tables, j: nat)
    requires TablesValid(t) && j < |t.enrollments|
    ensures UserById(t.users, t.enrollments[j].userId).Some?
    ensures CourseById(t.courses, t.enrollments[j].courseId).Some?
  {
    UserIdsLookup(t.users, t.enrollments[j].userId);
    CourseIdsLookup(t.courses, t.enrollments[j].courseId);
  }

  // Authentication

  /** `login`: the same error for an unknown email and for a wrong password;
      on success a token signed for the user's id. */
  function Login(users: seq<User>, tokens: TokenScheme, email: string, password: string): (r: Result<AuthPayload, Error>)
    ensures r.Err? ==> r.error == InvalidCredentials
    ensures r.Ok? <==> UserByEmail(users, email).Some? && Compare(password, UserByEmail(users, email).value.password)
    ensures r.Ok? ==> r.value.user in users && r.value.user.email == email &&
                      r.value.token == tokens.sign(r.value.user.id)
  {
    match UserByEmail(users, email)
    case None => Err(InvalidCredentials)
    case Some(u) =>
      if !Compare(password, u.password) then Err(InvalidCredentials)
      else Ok(AuthPayload(tokens.sign(u.id), u))
  }

  /** The client cannot tell an unknown email from a wrong password: every
      failed login carries the same message. */
  lemma LoginFailuresLookAlike(users: seq<User>, tokens: TokenScheme, email: string, password: string)
    ensures Login(users, tokens, email, password).Err? ==>
              Message(Login(users, tokens, email, password).error) == "Invalid credentials"
  {
  }

  /** The token `login` returns, sent back as `Authorization: Bearer <token>`,
      resolves to the user who logged in. */
  lemma LoginTokenResolves(users: seq<User>, tokens: TokenScheme, email: string, password: string)
    requires Sound(tokens) && Pairwise(users, DistinctUsers)
    requires Login(users, tokens, email, password).Ok?
    ensures var p := Login(users, tokens, email, password).value;
            CreateContext(Some(BearerPrefix + p.token), tokens, users).user == Some(Project(p.user))
  {
    var p := Login(users, tokens, email, password).value;
    var k :| 0 <= k < |users| && users[k] == p.user;
    BearerHeaderResolves(tokens, users, k);
  }

  // The database client's writes, as transitions of the tables

  /** `prisma.user.create`: refused when the email is taken (the unique
      index on email); otherwise a new row holding the next id. */
  function UserCreate(t: Tables, name: string, email: string, password: PasswordHash): (Result<User, Error>, Tables) {
    if UserByEmail(t.users, email).Some? then (Err(UniqueConstraintViolation), t)
    else
      var u := User(t.nextId, name, email, password);
      (Ok(u), t.(users := t.users + [u], nextId := t.nextId + 1))
  }

  /** `prisma.course.create`: a new row holding the next id, stamped by the clock. */
  function CourseCreate(t: Tables, input: CourseInput): (Course, Tables) {
    var c := Course(t.nextId, input.title, input.description, input.level, t.clock);
    (c, t.(courses := t.courses + [c], nextId := t.nextId + 1, clock := t.clock + 1))
  }

  /** `prisma.enrollment.create`: refused when the user or the course has no
      row (the foreign keys), and when the pair already has a row (the
      unique key `userId_courseId`). */
  function EnrollmentCreate(t: Tables, userId: Id, courseId: Id, role: Role): (Result<Enrollment, Error>, Tables) {
    if UserById(t.users, userId).None? || CourseById(t.courses, courseId).None? then (Err(ForeignKeyViolation), t)
    else if EnrollmentByPair(t.enrollments, userId, courseId).Some? then (Err(UniqueConstraintViolation), t)
    else
      var e := Enrollment(t.nextId, userId, courseId, role);
      (Ok(e), t.(enrollments := t.enrollments + [e], nextId := t.nextId + 1))
  }

  /** The update input applied to a course row: present fields replace,
      absent fields stay. */
  function ApplyUpdate(c: Course, input: UpdateCourseInput): (r: Course)
    ensures r.id == c.id && r.createdAt == c.createdAt
    ensures r.title == (if input.title.Some? then input.title.value else c.title)
    ensures r.description == (if input.description.Some? then input.description.value else c.description)
    ensures r.level == (if input.level.Some? then input.level.value else c.level)
  {
    c.(title := input.title.GetOr(c.title),
       description := input.description.GetOr(c.description),
       level := input.level.GetOr(c.level))
  }

  /** `prisma.course.update`: refused when no row holds `id`. */
  function CourseUpdate(t: Tables, id: Id, input: UpdateCourseInput): (Result<Course, Error>, Tables) {
    match CourseIndex(t.courses, id)
    case None => (Err(RecordToUpdateNotFound), t)
    case Some(i) =>
      var c := ApplyUpdate(t.courses[i], input);
      (Ok(c), t.(courses := t.courses[i := c]))
  }

  /** `prisma.course.delete`: refused when no row holds `id`; the enrollments
      in the course go with it (the cascade). */
  function CourseDelete(t: Tables, id: Id): (Result<Course, Error>, Tables) {
    match CourseById(t.courses, id)
    case None => (Err(RecordNotFound), t)
    case Some(c) =>
      (Ok(c), t.(courses := WithoutCourse(t.courses, id), enrollments := WithoutCourseEnrollments(t.enrollments, id)))
  }

  /** `prisma.enrollment.delete` by the key `userId_courseId`: refused when
      the pair has no row. */
  function EnrollmentDelete(t: Tables, userId: Id, courseId: Id): (Result<Enrollment, Error>, Tables) {
    match PairIndex(t.enrollments, userId, courseId)
    case None => (Err(RecordNotFound), t)
    case Some(i) => (Ok(t.enrollments[i]), t.(enrollments := t.enrollments[..i] + t.enrollments[i + 1..]))
  }

  // What each write keeps of the database invariant

  /** A user write keeps the invariant; it succeeds exactly when the email
      is new, and the new row is then what the lookup by that email finds. */
  lemma UserCreateKeepsValid(t: Tables, name: string, email: string, password: PasswordHash)
    requires TablesValid(t)
    ensures var (r, t') := UserCreate(t, name, email, password);
            && TablesValid(t')
            && (r.Ok? <==> UserByEmail(t.users, email).None?)
            && (r.Ok? ==> UserByEmail(t'.users, email) == Some(r.value))
  {
    var (r, t') := UserCreate(t, name, email, password);
    if r.Ok? {
      var u := r.value;
      PairwiseAppend(t.users, u, DistinctUsers);
      UserIdsAppend(t.users, u);
      UserByEmailAppend(t.users, u, email);
    }
  }

  /** A new course row keeps the invariant; its id is new, so exactly one
      course is added, and no enrollment names it yet. */
  lemma CourseCreateKeepsValid(t: Tables, input: CourseInput)
    requires TablesValid(t)
    ensures var (c, t') := CourseCreate(t, input);
            && TablesValid(t')
            && c.id !in CourseIds(t.courses)
            && CourseIds(t'.courses) == CourseIds(t.courses) + {c.id}
            && forall userId :: EnrollmentByPair(t'.enrollments, userId, c.id).None?
  {
    var (c, t') := CourseCreate(t, input);
    PairwiseAppend(t.courses, c, CreatedInOrder);
    CourseIdsAppend(t.courses, c);
    forall j | 0 <= j < |t.enrollments| ensures t.enrollments[j].courseId != c.id {
      assert t.enrollments[j].courseId in CourseIds(t.courses);
    }
  }

  /** An enrollment write keeps the invariant: the unique key refuses a
      second row for a pair, the foreign keys a row naming a missing user or
      course. */
  lemma EnrollmentCreateKeepsValid(t: Tables, userId: Id, courseId: Id, role: Role)
    requires TablesValid(t)
    ensures TablesValid(EnrollmentCreate(t, userId, courseId, role).1)
  {
    var (r, t') := EnrollmentCreate(t, userId, courseId, role);
    if r.Ok? {
      UserIdsLookup(t.users, userId);
      CourseIdsLookup(t.courses, courseId);
      AppendEnrollmentKeepsValid(t, r.value);
    }
  }

  /** Appending an enrollment that holds the next id, names existing rows and
      has a pair of its own keeps the invariant. */
  lemma AppendEnrollmentKeepsValid(t: Tables, e: Enrollment)
    requires TablesValid(t) && e.id == t.nextId
    requires e.userId in UserIds(t.users) && e.courseId in CourseIds(t.courses)
    requires EnrollmentByPair(t.enrollments, e.userId, e.courseId).None?
    ensures TablesValid(t.(enrollments := t.enrollments + [e], nextId := t.nextId + 1))
  {
    forall j | 0 <= j < |t.enrollments| ensures DistinctEnrollments(t.enrollments[j], e) {
      assert !IsPair(t.enrollments[j], e.userId, e.courseId);
    }
    PairwiseAppend(t.enrollments, e, DistinctEnrollments);
  }

  /** Two course tables that agree on every row's id and creation time satisfy
      the same course constraints and hold the same ids. */
  lemma SameCourseKeys(a: seq<Course>, b: seq<Course>)
    requires |a| == |b|
    requires forall j :: 0 <= j < |a| ==> a[j].id == b[j].id && a[j].createdAt == b[j].createdAt
    requires Pairwise(a, CreatedInOrder)
    ensures Pairwise(b, CreatedInOrder)
    ensures CourseIds(a) == CourseIds(b)
  {
    forall i, j | 0 <= i < j < |b| ensures CreatedInOrder(b[i], b[j]) {
      assert CreatedInOrder(a[i], a[j]);
    }
    forall id | id in CourseIds(a) ensures id in CourseIds(b) {
      var c :| c in a && c.id == id;
      var k :| 0 <= k < |a| && a[k] == c;
      assert b[k] in b;
    }
    forall id | id in CourseIds(b) ensures id in CourseIds(a) {
      var c :| c in b && c.id == id;
      var k :| 0 <= k < |b| && b[k] == c;
      assert a[k] in a;
    }
  }

  /** An update keeps the invariant and rewrites exactly the row holding
      `id`: every other row, and the row count, stay. */
  lemma CourseUpdateKeepsValid(t: Tables, id: Id, input: UpdateCourseInput)
    requires TablesValid(t)
    ensures var (r, t') := CourseUpdate(t, id, input);
            && TablesValid(t')
            && |t'.courses| == |t.courses|
            && forall j :: 0 <= j < |t.courses| ==>
                 t'.courses[j] == if t.courses[j].id == id then ApplyUpdate(t.courses[j], input) else t.courses[j]
  {
    var (r, t') := CourseUpdate(t, id, input);
    if r.Ok? {
      var i := CourseIndex(t.courses, id).value;
      SameCourseKeys(t.courses, t'.courses);
      forall j | 0 <= j < |t.courses| && j != i ensures t.courses[j].id != id {
        if j < i { assert CreatedInOrder(t.courses[j], t.courses[i]); }
        else { assert CreatedInOrder(t.courses[i], t.courses[j]); }
      }
    }
  }

  /** A course delete keeps the invariant and leaves neither the course nor
      any enrollment in it; when the row existed it is exactly that one row
      that goes. */
  lemma CourseDeleteKeepsValid(t: Tables, id: Id)
    requires TablesValid(t)
    ensures var (r, t') := CourseDelete(t, id);
            && TablesValid(t')
            && id !in CourseIds(t'.courses)
            && EnrollmentsOfCourse(t'.enrollments, id) == []
            && (r.Ok? ==>
                  && CourseIndex(t.courses, id).Some?
                  && (var i := CourseIndex(t.courses, id).value;
                      t'.courses == t.courses[..i] + t.courses[i + 1..]))
  {
    CourseIdsLookup(t.courses, id);
    if CourseById(t.courses, id).Some? {
      CourseDeleteExisting(t, id);
    } else {
      forall j | 0 <= j < |t.enrollments| ensures t.enrollments[j].courseId != id {
        assert t.enrollments[j].courseId in CourseIds(t.courses);
      }
      FilterNone(t.enrollments, (e: Enrollment) => e.courseId == id);
    }
  }

  /** The delete of an existing course, on the tables it produces. */
  lemma CourseDeleteExisting(t: Tables, id: Id)
    requires TablesValid(t) && CourseById(t.courses, id).Some?
    ensures var cs := WithoutCourse(t.courses, id);
            var es := WithoutCourseEnrollments(t.enrollments, id);
            && TablesValid(t.(courses := cs, enrollments := es))
            && id !in CourseIds(cs)
            && EnrollmentsOfCourse(es, id) == []
            && CourseIndex(t.courses, id).Some?
            && cs == t.courses[..CourseIndex(t.courses, id).value] + t.courses[CourseIndex(t.courses, id).value + 1..]
  {
    WithoutCourseRemovesOne(t.courses, CourseIndex(t.courses, id).value);
    CascadeKeepsValid(t, id);
    var es := WithoutCourseEnrollments(t.enrollments, id);
    FilterNone(es, (e: Enrollment) => e.courseId == id);
  }

  /** Removing a course's rows together with its enrollments keeps the
      invariant. */
  lemma CascadeKeepsValid(t: Tables, id: Id)
    requires TablesValid(t)
    ensures TablesValid(t.(courses := WithoutCourse(t.courses, id),
                           enrollments := WithoutCourseEnrollments(t.enrollments, id)))
  {
    CascadeKeepsCourses(t, id);
    CascadeKeepsKeys(t, id);
    FilterPairwise(t.enrollments, (e: Enrollment) => e.courseId != id, DistinctEnrollments);
  }

  /** The course rows left by a delete keep their bounds and their order. */
  lemma CascadeKeepsCourses(t: Tables, id: Id)
    requires TablesValid(t)
    ensures var cs := WithoutCourse(t.courses, id);
            && (forall j :: 0 <= j < |cs| ==> cs[j].id < t.nextId && cs[j].createdAt < t.clock)
            && Pairwise(cs, CreatedInOrder)
  {
    var cs := WithoutCourse(t.courses, id);
    FilterPairwise(t.courses, (c: Course) => c.id != id, CreatedInOrder);
    forall j | 0 <= j < |cs| ensures cs[j].id < t.nextId && cs[j].createdAt < t.clock {
      assert cs[j] in t.courses;
    }
  }

  /** The enrollments left by the cascade keep their bounds, and every one
      still names a user and a course that exist. */
  lemma CascadeKeepsKeys(t: Tables, id: Id)
    requires TablesValid(t)
    ensures var es := WithoutCourseEnrollments(t.enrollments, id);
            forall j :: 0 <= j < |es| ==>
              && es[j].id < t.nextId
              && es[j].userId in UserIds(t.users)
              && es[j].courseId in CourseIds(WithoutCourse(t.courses, id))
  {
    var es := WithoutCourseEnrollments(t.enrollments, id);
    var cs := WithoutCourse(t.courses, id);
    forall j | 0 <= j < |es|
      ensures es[j].id < t.nextId
      ensures es[j].userId in UserIds(t.users) && es[j].courseId in CourseIds(cs)
    {
      var e := es[j];
      assert e in t.enrollments;
      var held :| held in t.courses && held.id == e.courseId;
      assert held in cs;
    }
  }

  /** An enrollment delete keeps the invariant and leaves exactly the rows of
      the other pairs. */
  lemma EnrollmentDeleteKeepsValid(t: Tables, userId: Id, courseId: Id)
    requires TablesValid(t)
    ensures var (r, t') := EnrollmentDelete(t, userId, courseId);
            && TablesValid(t')
            && forall e :: e in t'.enrollments <==> e in t.enrollments && !IsPair(e, userId, courseId)
  {
    var (r, t') := EnrollmentDelete(t, userId, courseId);
    if r.Ok? {
      RemoveOnePair(t, PairIndex(t.enrollments, userId, courseId).value);
    } else {
      forall e | e in t.enrollments ensures !IsPair(e, userId, courseId) {
        var k :| 0 <= k < |t.enrollments| && t.enrollments[k] == e;
      }
    }
  }

  /** Removing the row at `i` keeps the invariant and leaves exactly the rows of other pairs. */
  lemma RemoveOnePair(t: Tables, i: nat)
    requires TablesValid(t) && i < |t.enrollments|
    ensures TablesValid(t.(enrollments := t.enrollments[..i] + t.enrollments[i + 1..]))
    ensures forall e :: e in t.enrollments[..i] + t.enrollments[i + 1..] <==>
              e in t.enrollments && !IsPair(e, t.enrollments[i].userId, t.enrollments[i].courseId)
  {
    var rows := t.enrollments;
    var rest := rows[..i] + rows[i + 1..];
    PairwiseRemoveAt(rows, i, DistinctEnrollments);
    forall j | 0 <= j < |rest|
      ensures rest[j] == if j < i then rows[j] else rows[j + 1]
    {
    }
    RemovedPairLeavesOthers(rows, i);
  }

  /** With one row per pair, removing the row at `i` removes its pair and nothing else. */
  lemma RemovedPairLeavesOthers(rows: seq<Enrollment>, i: nat)
    requires Pairwise(rows, DistinctEnrollments) && i < |rows|
    ensures forall e :: e in rows[..i] + rows[i + 1..] <==> e in rows && !IsPair(e, rows[i].userId, rows[i].courseId)
  {
    var rest := rows[..i] + rows[i + 1..];
    forall j | 0 <= j < |rows| && j != i ensures !IsPair(rows[j], rows[i].userId, rows[i].courseId) {
      if j < i {
        assert DistinctEnrollments(rows[j], rows[i]);
      } else {
        assert DistinctEnrollments(rows[i], rows[j]);
      }
    }
    forall e | e in rows ensures e in rest <==> !IsPair(e, rows[i].userId, rows[i].courseId) {
      var k :| 0 <= k < |rows| && rows[k] == e;
      if k < i { assert rest[k] == e; } else if k > i { assert rest[k - 1] == e; }
    }
  }

  // Mutations, as transitions of the tables: each returns the resolver's
  // result and the tables after it.

  /** `register`: refuses an email already in use; otherwise stores one new
      user with the bcrypt hash of the password and returns a signed token. */
  function RegisterStep(t: Tables, tokens: TokenScheme, name: string, email: string, password: string, salt: nat)
    : (out: (Result<AuthPayload, Error>, Tables))
    ensures out.0.Err? <==> UserByEmail(t.users, email).Some?
    ensures out.0.Err? ==> out.0.error == UserAlreadyExists && out.1 == t
    ensures out.0.Ok? ==>
              var u := out.0.value.user;
              && u.id == t.nextId && u.name == name && u.email == email && Compare(password, u.password)
              && out.0.value.token == tokens.sign(u.id)
              && out.1 == t.(users := t.users + [u], nextId := t.nextId + 1)
  {
    if UserByEmail(t.users, email).Some? then (Err(UserAlreadyExists), t)
    else
      var (created, t') := UserCreate(t, name, email, Hash(password, SaltRounds, salt));
      match created
      case Ok(u) => (Ok(AuthPayload(tokens.sign(u.id), u)), t')
      case Err(e) => (Err(e), t')
  }

  /** `register` keeps the invariant, and the new user is the one the email now finds. */
  lemma RegisterKeepsValid(t: Tables, tokens: TokenScheme, name: string, email: string, password: string, salt: nat)
    requires TablesValid(t)
    ensures var out := RegisterStep(t, tokens, name, email, password, salt);
            TablesValid(out.1) && (out.0.Ok? ==> UserByEmail(out.1.users, email) == Some(out.0.value.user))
  {
    UserCreateKeepsValid(t, name, email, Hash(password, SaltRounds, salt));
  }

  /** A registered user logs in with the password they registered with, as
      the same user and with a token that verifies to that user's id (with
      the time-free signing of the model, the very token `register` gave),
      and with no other password. */
  lemma LoginAfterRegister(t: Tables, tokens: TokenScheme, name: string, email: string, password: string,
                           salt: nat, other: string)
    requires RegisterStep(t, tokens, name, email, password, salt).0.Ok?
    ensures var out := RegisterStep(t, tokens, name, email, password, salt);
            var login := Login(out.1.users, tokens, email, password);
            && login.Ok?
            && login.value.user == out.0.value.user
            && (Sound(tokens) ==> tokens.verify(login.value.token) == Some(out.0.value.user.id))
    ensures var out := RegisterStep(t, tokens, name, email, password, salt);
            Login(out.1.users, tokens, email, password) == out.0
    ensures other != password ==>
            Login(RegisterStep(t, tokens, name, email, password, salt).1.users, tokens, email, other) == Err(InvalidCredentials)
  {
    var u := RegisterStep(t, tokens, name, email, password, salt).0.value.user;
    UserByEmailAppend(t.users, u, email);
  }

  /** `createCourse`: stores the course, then enrolls the creator as its
      professor. The two writes are separate: when the creator has no user
      row the enrollment is refused and the course stays without one. The
      database holds its constraints, so no enrollment names the new id yet. */
  function CreateCourseStep(t: Tables, ctx: Context, input: CourseInput): (out: (Result<Course, Error>, Tables))
    requires TablesValid(t)
    ensures ctx.user.None? ==> out == (Err(NotAuthenticated), t)
    ensures ctx.user.Some? ==>
              var c := Course(t.nextId, input.title, input.description, input.level, t.clock);
              && out.1.courses == t.courses + [c]
              && out.1.users == t.users && out.1.clock == t.clock + 1
              && (out.0.Ok? <==> UserById(t.users, ctx.user.value.id).Some?)
              && (out.0.Ok? ==>
                    && out.0.value == c
                    && out.1.enrollments == t.enrollments + [Enrollment(t.nextId + 1, ctx.user.value.id, c.id, Professor)]
                    && out.1.nextId == t.nextId + 2)
              && (out.0.Err? ==>
                    && out.0.error == ForeignKeyViolation
                    && out.1.enrollments == t.enrollments && out.1.nextId == t.nextId + 1)
  {
    match ctx.user
    case None => (Err(NotAuthenticated), t)
    case Some(au) =>
      var (c, t1) := CourseCreate(t, input);
      CourseByIdAppend(t.courses, c, c.id);
      FreshCourseHasNoEnrollment(t, au.id);
      var (e, t2) := EnrollmentCreate(t1, au.id, c.id, Professor);
      (if e.Ok? then Ok(c) else Err(e.error), t2)
  }

  /** `createCourse` keeps the invariant, and the course it stores has an id
      no course had before: exactly one course is added. */
  lemma CreateCourseKeepsValid(t: Tables, ctx: Context, input: CourseInput)
    requires TablesValid(t)
    ensures TablesValid(CreateCourseStep(t, ctx, input).1)
    ensures ctx.user.Some? ==>
              t.nextId !in CourseIds(t.courses) &&
              CourseIds(CreateCourseStep(t, ctx, input).1.courses) == CourseIds(t.courses) + {t.nextId}
  {
    if ctx.user.Some? {
      var (c, t1) := CourseCreate(t, input);
      CourseCreateKeepsValid(t, input);
      EnrollmentCreateKeepsValid(t1, ctx.user.value.id, c.id, Professor);
    }
  }

  /** `updateCourse`: only a professor of the course may edit it; the edit
      touches that one row and only the fields the input carries. */
  function UpdateCourseStep(t: Tables, ctx: Context, id: Id, input: UpdateCourseInput): (out: (Result<Course, Error>, Tables))
    ensures out.0.Err? ==> out.1 == t
    ensures ctx.user.None? ==> out.0 == Err(NotAuthenticated)
    ensures ctx.user.Some? && ProfessorEnrollment(t.enrollments, ctx.user.value.id, id).None? ==>
              out.0 == Err(NotAuthorizedToEdit)
    ensures out.0.Ok? <==>
              ctx.user.Some? && ProfessorEnrollment(t.enrollments, ctx.user.value.id, id).Some? &&
              CourseById(t.courses, id).Some?
    ensures out.0.Ok? ==>
              var i := CourseIndex(t.courses, id).value;
              out.0.value == ApplyUpdate(t.courses[i], input) &&
              out.1 == t.(courses := t.courses[i := out.0.value])
  {
    match ctx.user
    case None => (Err(NotAuthenticated), t)
    case Some(au) =>
      if ProfessorEnrollment(t.enrollments, au.id, id).None? then (Err(NotAuthorizedToEdit), t)
      else CourseUpdate(t, id, input)
  }

  /** `updateCourse` keeps the invariant, never reaches the missing-row error
      (a professor enrollment names an existing course), and rewrites exactly
      the row holding `id`. */
  lemma UpdateCourseKeepsValid(t: Tables, ctx: Context, id: Id, input: UpdateCourseInput)
    requires TablesValid(t)
    ensures TablesValid(UpdateCourseStep(t, ctx, id, input).1)
    ensures UpdateCourseStep(t, ctx, id, input).0 != Err(RecordToUpdateNotFound)
    ensures var out := UpdateCourseStep(t, ctx, id, input);
            out.0.Ok? ==>
              |out.1.courses| == |t.courses| &&
              forall j :: 0 <= j < |t.courses| ==>
                out.1.courses[j] == if t.courses[j].id == id then ApplyUpdate(t.courses[j], input) else t.courses[j]
  {
    if ctx.user.Some? && ProfessorEnrollment(t.enrollments, ctx.user.value.id, id).Some? {
      ProfessorGateFindsCourse(t, ctx.user.value.id, id);
      CourseUpdateKeepsValid(t, id, input);
    }
  }

  /** `deleteCourse`: only a professor of the course may delete it; the
      course row goes, and the cascade takes every enrollment in it. */
  function DeleteCourseStep(t: Tables, ctx: Context, id: Id): (out: (Result<bool, Error>, Tables))
    ensures out.0.Err? ==> out.1 == t
    ensures ctx.user.None? ==> out.0 == Err(NotAuthenticated)
    ensures ctx.user.Some? && ProfessorEnrollment(t.enrollments, ctx.user.value.id, id).None? ==>
              out.0 == Err(NotAuthorizedToDelete)
    ensures out.0.Ok? <==>
              ctx.user.Some? && ProfessorEnrollment(t.enrollments, ctx.user.value.id, id).Some? &&
              CourseById(t.courses, id).Some?
    ensures out.0.Ok? ==>
              out.0.value &&
              out.1 == t.(courses := WithoutCourse(t.courses, id),
                          enrollments := WithoutCourseEnrollments(t.enrollments, id))
  {
    match ctx.user
    case None => (Err(NotAuthenticated), t)
    case Some(au) =>
      if ProfessorEnrollment(t.enrollments, au.id, id).None? then (Err(NotAuthorizedToDelete), t)
      else
        var (d, t') := CourseDelete(t, id);
        (if d.Ok? then Ok(true) else Err(d.error), t')
  }

  /** `deleteCourse` keeps the invariant, never reaches the missing-row
      error, removes exactly the one course row, and leaves no enrollment
      in the deleted course. */
  lemma DeleteCourseKeepsValid(t: Tables, ctx: Context, id: Id)
    requires TablesValid(t)
    ensures TablesValid(DeleteCourseStep(t, ctx, id).1)
    ensures DeleteCourseStep(t, ctx, id).0 != Err(RecordNotFound)
    ensures var out := DeleteCourseStep(t, ctx, id);
            out.0.Ok? ==>
              && CourseIndex(t.courses, id).Some?
              && (var i := CourseIndex(t.courses, id).value;
                  out.1.courses == t.courses[..i] + t.courses[i + 1..])
              && id !in CourseIds(out.1.courses)
              && EnrollmentsOfCourse(out.1.enrollments, id) == []
  {
    if ctx.user.Some? && ProfessorEnrollment(t.enrollments, ctx.user.value.id, id).Some? {
      ProfessorGateFindsCourse(t, ctx.user.value.id, id);
      CourseDeleteKeepsValid(t, id);
    }
  }

  /** `enrollInCourse`: refuses a second enrollment of the same user in the
      same course; otherwise stores one enrollment with the requested role,
      STUDENT when none is given. */
  function EnrollStep(t: Tables, ctx: Context, courseId: Id, role: Option<Role>): (out: (Result<Enrollment, Error>, Tables))
    ensures out.0.Err? ==> out.1 == t
    ensures ctx.user.None? ==> out.0 == Err(NotAuthenticated)
    ensures ctx.user.Some? ==>
              (out.0 == Err(AlreadyEnrolled) <==> EnrollmentByPair(t.enrollments, ctx.user.value.id, courseId).Some?)
    ensures out.0.Ok? <==>
              && ctx.user.Some? && EnrollmentByPair(t.enrollments, ctx.user.value.id, courseId).None?
              && UserById(t.users, ctx.user.value.id).Some? && CourseById(t.courses, courseId).Some?
    ensures out.0.Ok? ==>
              out.0.value == Enrollment(t.nextId, ctx.user.value.id, courseId, role.GetOr(Student)) &&
              out.1 == t.(enrollments := t.enrollments + [out.0.value], nextId := t.nextId + 1)
  {
    match ctx.user
    case None => (Err(NotAuthenticated), t)
    case Some(au) =>
      if EnrollmentByPair(t.enrollments, au.id, courseId).Some? then (Err(AlreadyEnrolled), t)
      else EnrollmentCreate(t, au.id, courseId, role.GetOr(Student))
  }

  /** `enrollInCourse` keeps the invariant: its check is what keeps one
      enrollment per (user, course). */
  lemma EnrollKeepsValid(t: Tables, ctx: Context, courseId: Id, role: Option<Role>)
    requires TablesValid(t)
    ensures TablesValid(EnrollStep(t, ctx, courseId, role).1)
  {
    if ctx.user.Some? && EnrollmentByPair(t.enrollments, ctx.user.value.id, courseId).None? {
      EnrollmentCreateKeepsValid(t, ctx.user.value.id, courseId, role.GetOr(Student));
    }
  }

  /** Enrolling twice in the same course is refused the second time, whatever the role. */
  lemma EnrollTwiceRejected(t: Tables, ctx: Context, courseId: Id, role: Option<Role>, role2: Option<Role>)
    requires EnrollStep(t, ctx, courseId, role).0.Ok?
    ensures EnrollStep(EnrollStep(t, ctx, courseId, role).1, ctx, courseId, role2).0 == Err(AlreadyEnrolled)
  {
    var out := EnrollStep(t, ctx, courseId, role);
    EnrollmentByPairAppend(t.enrollments, out.0.value, ctx.user.value.id, courseId);
  }

  /** The role is the caller's choice: a user who enrolls as PROFESSOR then
      passes the gate of `updateCourse` and `deleteCourse` on that course. */
  lemma SelfAssignedProfessorPassesGate(t: Tables, ctx: Context, courseId: Id, input: UpdateCourseInput)
    requires EnrollStep(t, ctx, courseId, Some(Professor)).0.Ok?
    ensures var t' := EnrollStep(t, ctx, courseId, Some(Professor)).1;
            UpdateCourseStep(t', ctx, courseId, input).0.Ok? && DeleteCourseStep(t', ctx, courseId).0.Ok?
  {
    var out := EnrollStep(t, ctx, courseId, Some(Professor));
    ProfessorEnrollmentAppend(t.enrollments, out.0.value);
  }

  /** The creator of a course may edit and delete it. */
  lemma CreatorPassesGate(t: Tables, ctx: Context, input: CourseInput, update: UpdateCourseInput)
    requires TablesValid(t) && CreateCourseStep(t, ctx, input).0.Ok?
    ensures var out := CreateCourseStep(t, ctx, input);
            UpdateCourseStep(out.1, ctx, out.0.value.id, update).0.Ok? &&
            DeleteCourseStep(out.1, ctx, out.0.value.id).0.Ok?
  {
    var out := CreateCourseStep(t, ctx, input);
    var c := out.0.value;
    var e := Enrollment(t.nextId + 1, ctx.user.value.id, c.id, Professor);
    ProfessorEnrollmentAppend(t.enrollments, e);
    CourseByIdAppend(t.courses, c, c.id);
  }

  /** `unenrollFromCourse`: deletes the caller's one enrollment in the
      course, whatever its role; a missing row is the database's error. */
  function UnenrollStep(t: Tables, ctx: Context, courseId: Id): (out: (Result<bool, Error>, Tables))
    ensures out.0.Err? ==> out.1 == t
    ensures ctx.user.None? ==> out.0 == Err(NotAuthenticated)
    ensures ctx.user.Some? ==>
              (out.0 == Err(RecordNotFound) <==> EnrollmentByPair(t.enrollments, ctx.user.value.id, courseId).None?)
    ensures out.0.Ok? <==> ctx.user.Some? && EnrollmentByPair(t.enrollments, ctx.user.value.id, courseId).Some?
    ensures out.0.Ok? ==>
              && out.0.value
              && PairIndex(t.enrollments, ctx.user.value.id, courseId).Some?
              && (var i := PairIndex(t.enrollments, ctx.user.value.id, courseId).value;
                  out.1 == t.(enrollments := t.enrollments[..i] + t.enrollments[i + 1..]))
  {
    match ctx.user
    case None => (Err(NotAuthenticated), t)
    case Some(au) =>
      var (d, t') := EnrollmentDelete(t, au.id, courseId);
      (if d.Ok? then Ok(true) else Err(d.error), t')
  }

  /** The resolver does not look at the role: a professor of the course may
      unenroll too, and then loses the rights over it that the row gave. */
  lemma ProfessorCanUnenroll(t: Tables, ctx: Context, courseId: Id)
    requires ctx.user.Some? && ProfessorEnrollment(t.enrollments, ctx.user.value.id, courseId).Some?
    ensures UnenrollStep(t, ctx, courseId).0 == Ok(true)
  {
    var e := ProfessorEnrollment(t.enrollments, ctx.user.value.id, courseId).value;
    var k :| 0 <= k < |t.enrollments| && t.enrollments[k] == e;
  }

  /** `unenrollFromCourse` keeps the invariant and removes exactly the
      caller's enrollment in the course: every other row stays. */
  lemma UnenrollKeepsValid(t: Tables, ctx: Context, courseId: Id)
    requires TablesValid(t)
    ensures TablesValid(UnenrollStep(t, ctx, courseId).1)
    ensures var out := UnenrollStep(t, ctx, courseId);
            ctx.user.Some? ==>
              forall e :: e in out.1.enrollments <==> e in t.enrollments && !IsPair(e, ctx.user.value.id, courseId)
  {
    if ctx.user.Some? {
      EnrollmentDeleteKeepsValid(t, ctx.user.value.id, courseId);
    }
  }

  /** Unenrolling right after enrolling gives back the enrollment table as it was. */
  lemma EnrollThenUnenroll(t: Tables, ctx: Context, courseId: Id, role: Option<Role>)
    requires EnrollStep(t, ctx, courseId, role).0.Ok?
    ensures var t' := EnrollStep(t, ctx, courseId, role).1;
            UnenrollStep(t', ctx, courseId) == (Ok(true), t'.(enrollments := t.enrollments))
  {
    var e := EnrollStep(t, ctx, courseId, role).0.value;
    PairIndexAppend(t.enrollments, e);
    var rows := t.enrollments + [e];
    assert rows[..|t.enrollments|] + rows[|t.enrollments| + 1..] == t.enrollments;
  }

  /** The shared store: the three tables, the id generator and the clock
      that stamps `createdAt`, and the process-wide token scheme. The
      database client's writes change the fields as their transitions say;
      each resolver performs its checks and calls those writes in the
      source's order, is proved to make exactly the transition of its step
      function, and keeps the database invariant. */
  class Database {
    var users: seq<User>
    var courses: seq<Course>
    var enrollments: seq<Enrollment>
    var nextId: nat
    var clock: nat
    const tokens: TokenScheme

    function State(): Tables
      reads this
    {
      Tables(users, courses, enrollments, nextId, clock)
    }

    ghost predicate Valid()
      reads this
    {
      TablesValid(State())
    }

    /** The client connects to a database that may already hold rows; it
        holds the constraints the schema declares. */
    constructor (tokens: TokenScheme, initial: Tables)
      requires TablesValid(initial)
      ensures Valid() && this.tokens == tokens
      ensures State() == initial
    {
      this.tokens := tokens;
      users, courses, enrollments := initial.users, initial.courses, initial.enrollments;
      nextId, clock := initial.nextId, initial.clock;
    }

    // The database client's writes

    method CreateUserRow(name: string, email: string, password: PasswordHash) returns (r: Result<User, Error>)
      requires Valid()
      modifies this
      ensures Valid()
      ensures (r, State()) == UserCreate(old(State()), name, email, password)
    {
      UserCreateKeepsValid(State(), name, email, password);
      if UserByEmail(users, email).Some? {
        return Err(UniqueConstraintViolation);
      }
      var u := User(nextId, name, email, password);
      users := users + [u];
      nextId := nextId + 1;
      r := Ok(u);
    }

    method CreateCourseRow(input: CourseInput) returns (c: Course)
      requires Valid()
      modifies this
      ensures Valid()
      ensures (c, State()) == CourseCreate(old(State()), input)
    {
      CourseCreateKeepsValid(State(), input);
      c := Course(nextId, input.title, input.description, input.level, clock);
      courses := courses + [c];
      nextId, clock := nextId + 1, clock + 1;
    }

    method CreateEnrollmentRow(userId: Id, courseId: Id, role: Role) returns (r: Result<Enrollment, Error>)
      requires Valid()
      modifies this
      ensures Valid()
      ensures (r, State()) == EnrollmentCreate(old(State()), userId, courseId, role)
    {
      ghost var t := State();
      EnrollmentCreateKeepsValid(t, userId, courseId, role);
      ghost var t' := EnrollmentCreate(t, userId, courseId, role).1;
      if UserById(users, userId).None? || CourseById(courses, courseId).None? {
        return Err(ForeignKeyViolation);
      }
      if EnrollmentByPair(enrollments, userId, courseId).Some? {
        return Err(UniqueConstraintViolation);
      }
      var e := Enrollment(nextId, userId, courseId, role);
      enrollments, nextId := enrollments + [e], nextId + 1;
      assert State() == t';
      r := Ok(e);
    }

    method UpdateCourseRow(id: Id, input: UpdateCourseInput) returns (r: Result<Course, Error>)
      requires Valid()
      modifies this
      ensures Valid()
      ensures (r, State()) == CourseUpdate(old(State()), id, input)
    {
      CourseUpdateKeepsValid(State(), id, input);
      var found := CourseIndex(courses, id);
      if found.None? {
        return Err(RecordToUpdateNotFound);
      }
      var updated := ApplyUpdate(courses[found.value], input);
      courses := courses[found.value := updated];
      r := Ok(updated);
    }

    method DeleteCourseRow(id: Id) returns (r: Result<Course, Error>)
      requires Valid()
      modifies this
      ensures Valid()
      ensures (r, State()) == CourseDelete(old(State()), id)
    {
      var found := CourseById(courses, id);
      if found.None? {
        return Err(RecordNotFound);
      }
      courses, enrollments := WithoutCourse(courses, id), WithoutCourseEnrollments(enrollments, id);
      r := Ok(found.value);
      CourseDeleteKeepsValid(old(State()), id);
    }

    method DeleteEnrollmentRow(userId: Id, courseId: Id) returns (r: Result<Enrollment, Error>)
      requires Valid()
      modifies this
      ensures Valid()
      ensures (r, State()) == EnrollmentDelete(old(State()), userId, courseId)
    {
      EnrollmentDeleteKeepsValid(State(), userId, courseId);
      var found := PairIndex(enrollments, userId, courseId);
      if found.None? {
        return Err(RecordNotFound);
      }
      var i := found.value;
      r := Ok(enrollments[i]);
      enrollments := enrollments[..i] + enrollments[i + 1..];
    }

    // The resolvers

    method Register(name: string, email: string, password: string, salt: nat) returns (r: Result<AuthPayload, Error>)
      requires Valid()
      modifies this
      ensures Valid()
      ensures (r, State()) == RegisterStep(old(State()), tokens, name, email, password, salt)
    {
      RegisterKeepsValid(State(), tokens, name, email, password, salt);
      if UserByEmail(users, email).Some? {
        return Err(UserAlreadyExists);
      }
      var created := CreateUserRow(name, email, Hash(password, SaltRounds, salt));
      r := match created
        case Ok(u) => Ok(AuthPayload(tokens.sign(u.id), u))
        case Err(e) => Err(e);
    }

    method CreateCourse(ctx: Context, input: CourseInput) returns (r: Result<Course, Error>)
      requires Valid()
      modifies this
      ensures Valid()
      ensures (r, State()) == CreateCourseStep(old(State()), ctx, input)
    {
      CreateCourseKeepsValid(State(), ctx, input);
      if ctx.user.None? {
        return Err(NotAuthenticated);
      }
      var c := CreateCourseRow(input);
      var e := CreateEnrollmentRow(ctx.user.value.id, c.id, Professor);
      if e.Err? {
        return Err(e.error);
      }
      r := Ok(c);
    }

    method UpdateCourse(ctx: Context, id: Id, input: UpdateCourseInput) returns (r: Result<Course, Error>)
      requires Valid()
      modifies this
      ensures Valid()
      ensures (r, State()) == UpdateCourseStep(old(State()), ctx, id, input)
    {
      UpdateCourseKeepsValid(State(), ctx, id, input);
      if ctx.user.None? {
        return Err(NotAuthenticated);
      }
      if ProfessorEnrollment(enrollments, ctx.user.value.id, id).None? {
        return Err(NotAuthorizedToEdit);
      }
      r := UpdateCourseRow(id, input);
    }

    method DeleteCourse(ctx: Context, id: Id) returns (r: Result<bool, Error>)
      requires Valid()
      modifies this
      ensures Valid()
      ensures (r, State()) == DeleteCourseStep(old(State()), ctx, id)
    {
      DeleteCourseKeepsValid(State(), ctx, id);
      if ctx.user.None? {
        return Err(NotAuthenticated);
      }
      if ProfessorEnrollment(enrollments, ctx.user.value.id, id).None? {
        return Err(NotAuthorizedToDelete);
      }
      var deleted := DeleteCourseRow(id);
      if deleted.Err? {
        return Err(deleted.error);
      }
      r := Ok(true);
    }

    method EnrollInCourse(ctx: Context, courseId: Id, role: Option<Role>) returns (r: Result<Enrollment, Error>)
      requires Valid()
      modifies this
      ensures Valid()
      ensures (r, State()) == EnrollStep(old(State()), ctx, courseId, role)
    {
      EnrollKeepsValid(State(), ctx, courseId, role);
      if ctx.user.None? {
        return Err(NotAuthenticated);
      }
      if EnrollmentByPair(enrollments, ctx.user.value.id, courseId).Some? {
        return Err(AlreadyEnrolled);
      }
      r := CreateEnrollmentRow(ctx.user.value.id, courseId, role.GetOr(Student));
    }

    method UnenrollFromCourse(ctx: Context, courseId: Id) returns (r: Result<bool, Error>)
      requires Valid()
      modifies this
      ensures Valid()
      ensures (r, State()) == UnenrollStep(old(State()), ctx, courseId)
    {
      UnenrollKeepsValid(State(), ctx, courseId);
      if ctx.user.None? {
        return Err(NotAuthenticated);
      }
      var deleted := DeleteEnrollmentRow(ctx.user.value.id, courseId);
      if deleted.Err? {
        return Err(deleted.error);
      }
      r := Ok(true);
    }
  }
}
