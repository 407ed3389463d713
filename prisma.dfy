/** The database tables the backend reads and writes, as rows kept in storage
    order, with the lookups the resolvers and the identity resolver issue and
    the constraints the (unseen) Prisma schema enforces. */
module Prisma {
  import opened Wrappers
  import opened Seqs
  import opened Schema
  import opened Crypto

  datatype User = User(id: Id, name: string, email: string, password: PasswordHash)

  /** `createdAt` is the database's creation timestamp, modelled as a counter. */
  datatype Course = Course(id: Id, title: string, description: string, level: CourseLevel, createdAt: nat)

  datatype Enrollment = Enrollment(id: Id, userId: Id, courseId: Id, role: Role)

  // Lookups

  /** The user row holding an id (resolvers.ts:279-281). */
  function UserById(users: seq<User>, id: Id): (r: Option<User>)
    ensures r.Some? ==> r.value in users && r.value.id == id
    ensures r.None? <==> forall j :: 0 <= j < |users| ==> users[j].id != id
  {
    FindFirst(users, (u: User) => u.id == id)
  }

  /** The user row holding an email, which is unique (resolvers.ts:97, 112). */
  function UserByEmail(users: seq<User>, email: string): (r: Option<User>)
    ensures r.Some? ==> r.value in users && r.value.email == email
    ensures r.None? <==> forall j :: 0 <= j < |users| ==> users[j].email != email
  {
    FindFirst(users, (u: User) => u.email == email)
  }

  /** The course row holding an id (resolvers.ts:284-286). */
  function CourseById(courses: seq<Course>, id: Id): (r: Option<Course>)
    ensures r.Some? ==> r.value in courses && r.value.id == id
    ensures r.None? <==> forall j :: 0 <= j < |courses| ==> courses[j].id != id
  {
    FindFirst(courses, (c: Course) => c.id == id)
  }

  /** Position of the course row holding `id`. */
  function CourseIndex(courses: seq<Course>, id: Id): (r: Option<nat>)
    ensures r.Some? ==> r.value < |courses| && courses[r.value].id == id
    ensures r.None? <==> CourseById(courses, id).None?
  {
    IndexWhere(courses, (c: Course) => c.id == id)
  }

  predicate IsPair(e: Enrollment, userId: Id, courseId: Id) {
    e.userId == userId && e.courseId == courseId
  }

  /** The enrollment row of a (user, course) pair, looked up by its unique
      key (resolvers.ts:210-215). */
  function EnrollmentByPair(rows: seq<Enrollment>, userId: Id, courseId: Id): (r: Option<Enrollment>)
    ensures r.Some? ==> r.value in rows && IsPair(r.value, userId, courseId)
    ensures r.None? <==> forall j :: 0 <= j < |rows| ==> !IsPair(rows[j], userId, courseId)
  {
    FindFirst(rows, (e: Enrollment) => IsPair(e, userId, courseId))
  }

  /** Position of the enrollment row of a (user, course) pair. */
  function PairIndex(rows: seq<Enrollment>, userId: Id, courseId: Id): (r: Option<nat>)
    ensures r.Some? ==> r.value < |rows| && IsPair(rows[r.value], userId, courseId)
    ensures r.None? <==> EnrollmentByPair(rows, userId, courseId).None?
  {
    IndexWhere(rows, (e: Enrollment) => IsPair(e, userId, courseId))
  }

  /** The first PROFESSOR enrollment of a user in a course: the
      authorization gate of `updateCourse` and `deleteCourse`
      (resolvers.ts:161-167, 190-196). */
  function ProfessorEnrollment(rows: seq<Enrollment>, userId: Id, courseId: Id): (r: Option<Enrollment>)
    ensures r.Some? ==> r.value in rows && IsPair(r.value, userId, courseId) && r.value.role == Professor
    ensures r.None? <==> forall j :: 0 <= j < |rows| ==> !(IsPair(rows[j], userId, courseId) && rows[j].role == Professor)
  {
    FindFirst(rows, (e: Enrollment) => IsPair(e, userId, courseId) && e.role == Professor)
  }

  /** The enrollments of a user, in storage order (resolvers.ts:267-274). */
  function EnrollmentsOfUser(rows: seq<Enrollment>, userId: Id): (r: seq<Enrollment>)
    ensures forall e :: e in r <==> e in rows && e.userId == userId
  {
    Filter(rows, (e: Enrollment) => e.userId == userId)
  }

  /** The enrollments of a course, in storage order (resolvers.ts:255-262). */
  function EnrollmentsOfCourse(rows: seq<Enrollment>, courseId: Id): (r: seq<Enrollment>)
    ensures forall e :: e in r <==> e in rows && e.courseId == courseId
  {
    Filter(rows, (e: Enrollment) => e.courseId == courseId)
  }

  // Constraints

  predicate DistinctUsers(a: User, b: User) {
    a.id != b.id && a.email != b.email
  }

  /** Two course rows in storage order: distinct ids, and the earlier one
      was created first. */
  predicate CreatedInOrder(a: Course, b: Course) {
    a.id != b.id && a.createdAt < b.createdAt
  }

  /** Distinct ids, and never the same (user, course) pair: the compound
      unique key `userId_courseId`. */
  predicate DistinctEnrollments(a: Enrollment, b: Enrollment) {
    a.id != b.id && !IsPair(b, a.userId, a.courseId)
  }

  /** At most one enrollment per (user, course). */
  ghost predicate OnePerPair(rows: seq<Enrollment>) {
    forall i, j :: 0 <= i < j < |rows| ==> !IsPair(rows[j], rows[i].userId, rows[i].courseId)
  }

  /** The whole database: the three tables, the id generator and the clock
      that stamps `createdAt`. */
  datatype Tables = Tables(users: seq<User>, courses: seq<Course>, enrollments: seq<Enrollment>,
                           nextId: nat, clock: nat)

  /** The database invariant: unique ids below the id counter, unique emails,
      course rows in creation order before the clock, unique (user, course)
      enrollments, and every enrollment referring to an existing user and
      course (the foreign keys). */
  ghost predicate TablesValid(t: Tables) {
    && (forall j :: 0 <= j < |t.users| ==> t.users[j].id < t.nextId)
    && Pairwise(t.users, DistinctUsers)
    && (forall j :: 0 <= j < |t.courses| ==> t.courses[j].id < t.nextId && t.courses[j].createdAt < t.clock)
    && Pairwise(t.courses, CreatedInOrder)
    && (forall j :: 0 <= j < |t.enrollments| ==> t.enrollments[j].id < t.nextId)
    && Pairwise(t.enrollments, DistinctEnrollments)
    && (forall j :: 0 <= j < |t.enrollments| ==>
          t.enrollments[j].userId in UserIds(t.users) && t.enrollments[j].courseId in CourseIds(t.courses))
  }

  /** A freshly migrated, empty database holds the constraints. */
  lemma EmptyTablesValid(nextId: Id, clock: nat)
    ensures TablesValid(Tables([], [], [], nextId, clock))
  {
  }

  /** The ids a table holds: what a foreign key may refer to. */
  ghost function UserIds(users: seq<User>): set<Id> {
    set u | u in users :: u.id
  }

  ghost function CourseIds(courses: seq<Course>): set<Id> {
    set c | c in courses :: c.id
  }

  lemma UserIdsAppend(users: seq<User>, u: User)
    ensures UserIds(users + [u]) == UserIds(users) + {u.id}
  {
    assert forall w :: w in users + [u] <==> w in users || w == u;
  }

  lemma CourseIdsAppend(courses: seq<Course>, c: Course)
    ensures CourseIds(courses + [c]) == CourseIds(courses) + {c.id}
  {
    assert forall w :: w in courses + [c] <==> w in courses || w == c;
  }

  /** A foreign key resolves exactly when the lookup by id finds a row. */
  lemma UserIdsLookup(users: seq<User>, id: Id)
    ensures id in UserIds(users) <==> UserById(users, id).Some?
  {
    if id in UserIds(users) {
      var u :| u in users && u.id == id;
      var k :| 0 <= k < |users| && users[k] == u;
    }
  }

  /** In a consistent database no enrollment names the id the generator
      hands out next: every enrollment names a stored course, and every
      stored course holds an id below it. */
  lemma FreshCourseHasNoEnrollment(t: Tables, userId: Id)
    requires TablesValid(t)
    ensures EnrollmentByPair(t.enrollments, userId, t.nextId).None?
  {
    forall j | 0 <= j < |t.enrollments|
      ensures t.enrollments[j].courseId != t.nextId
    {
      var c :| c in t.courses && c.id == t.enrollments[j].courseId;
      var k :| 0 <= k < |t.courses| && t.courses[k] == c;
    }
  }

  lemma CourseIdsLookup(courses: seq<Course>, id: Id)
    ensures id in CourseIds(courses) <==> CourseById(courses, id).Some?
  {
    if id in CourseIds(courses) {
      var c :| c in courses && c.id == id;
      var k :| 0 <= k < |courses| && courses[k] == c;
    }
  }

  /** The pairwise enrollment constraint is the uniqueness of (user, course). */
  lemma DistinctEnrollmentsOnePerPair(rows: seq<Enrollment>)
    requires Pairwise(rows, DistinctEnrollments)
    ensures OnePerPair(rows)
  {
    forall i, j | 0 <= i < j < |rows| ensures !IsPair(rows[j], rows[i].userId, rows[i].courseId) {
      assert DistinctEnrollments(rows[i], rows[j]);
    }
  }

  /** With unique ids, the lookup by id finds exactly the row holding that id. */
  lemma UserByIdFinds(users: seq<User>, k: nat)
    requires Pairwise(users, DistinctUsers) && k < |users|
    ensures UserById(users, users[k].id) == Some(users[k])
  {
    var r := UserById(users, users[k].id);
    var i :| 0 <= i < |users| && users[i] == r.value && users[i].id == users[k].id;
  }

  /** With unique emails, the lookup by email finds exactly the row holding that email. */
  lemma UserByEmailFinds(users: seq<User>, k: nat)
    requires Pairwise(users, DistinctUsers) && k < |users|
    ensures UserByEmail(users, users[k].email) == Some(users[k])
  {
    var r := UserByEmail(users, users[k].email);
    var i :| 0 <= i < |users| && users[i] == r.value && users[i].email == users[k].email;
  }

  /** A lookup by email after appending a row with a new email. */
  lemma UserByEmailAppend(users: seq<User>, u: User, email: string)
    ensures UserByEmail(users + [u], email) ==
            if UserByEmail(users, email).Some? then UserByEmail(users, email)
            else if u.email == email then Some(u) else None
  {
    FindFirstAppend(users, u, (x: User) => x.email == email);
  }

  /** Id lookups after appending a row. */
  lemma UserByIdAppend(users: seq<User>, u: User, id: Id)
    ensures UserById(users + [u], id).Some? <==> UserById(users, id).Some? || u.id == id
  {
    FindFirstAppend(users, u, (x: User) => x.id == id);
  }

  lemma CourseByIdAppend(courses: seq<Course>, c: Course, id: Id)
    ensures CourseById(courses + [c], id).Some? <==> CourseById(courses, id).Some? || c.id == id
  {
    FindFirstAppend(courses, c, (x: Course) => x.id == id);
  }

  /** Pair lookups after appending an enrollment row. */
  lemma EnrollmentByPairAppend(rows: seq<Enrollment>, e: Enrollment, userId: Id, courseId: Id)
    ensures EnrollmentByPair(rows + [e], userId, courseId).Some? <==>
            EnrollmentByPair(rows, userId, courseId).Some? || IsPair(e, userId, courseId)
  {
    FindFirstAppend(rows, e, (x: Enrollment) => IsPair(x, userId, courseId));
  }

  lemma PairIndexAppend(rows: seq<Enrollment>, e: Enrollment)
    requires EnrollmentByPair(rows, e.userId, e.courseId).None?
    ensures PairIndex(rows + [e], e.userId, e.courseId) == Some(|rows|)
  {
    IndexWhereAppend(rows, e, (x: Enrollment) => IsPair(x, e.userId, e.courseId));
  }

  lemma ProfessorEnrollmentAppend(rows: seq<Enrollment>, e: Enrollment)
    requires e.role == Professor
    ensures ProfessorEnrollment(rows + [e], e.userId, e.courseId).Some?
  {
    FindFirstAppend(rows, e, (x: Enrollment) => IsPair(x, e.userId, e.courseId) && x.role == Professor);
  }

  /** The course table after a delete (resolvers.ts:202): without the rows holding `id`. */
  function WithoutCourse(courses: seq<Course>, id: Id): (r: seq<Course>)
    ensures forall c :: c in r <==> c in courses && c.id != id
  {
    Filter(courses, (c: Course) => c.id != id)
  }

  /** The cascade of a course delete: the enrollments of other courses. */
  function WithoutCourseEnrollments(rows: seq<Enrollment>, courseId: Id): (r: seq<Enrollment>)
    ensures forall e :: e in r <==> e in rows && e.courseId != courseId
  {
    Filter(rows, (e: Enrollment) => e.courseId != courseId)
  }

  /** With unique course ids, deleting an existing course removes exactly its one row. */
  lemma WithoutCourseRemovesOne(courses: seq<Course>, k: nat)
    requires Pairwise(courses, CreatedInOrder) && k < |courses|
    ensures WithoutCourse(courses, courses[k].id) == courses[..k] + courses[k + 1..]
  {
    var id := courses[k].id;
    forall j | 0 <= j < |courses| && j != k ensures courses[j].id != id {
      if j < k { assert CreatedInOrder(courses[j], courses[k]); }
      else { assert CreatedInOrder(courses[k], courses[j]); }
    }
    FilterRemovesOne(courses, (c: Course) => c.id != id, k);
  }

  /** A professor enrollment names an existing course (the foreign key). */
  lemma ProfessorGateFindsCourse(t: Tables, userId: Id, courseId: Id)
    requires TablesValid(t)
    requires ProfessorEnrollment(t.enrollments, userId, courseId).Some?
    ensures CourseIndex(t.courses, courseId).Some?
  {
    var e := ProfessorEnrollment(t.enrollments, userId, courseId).value;
    var k :| 0 <= k < |t.enrollments| && t.enrollments[k] == e;
    CourseIdsLookup(t.courses, courseId);
  }
}
