/** The enrollment-derived rules of the course card
    (frontend/src/components/CourseCard.tsx): whether the signed-in user is
    enrolled in the course and as what, which buttons the card offers, and
    the colour of the level badge. The markup around them is not modelled. */
module CourseCard {
  import opened Wrappers
  import opened Schema
  import opened Seqs
  import opened ClientStore

  /** An enrollment is the signed-in user's when its user carries the user's
      id (CourseCard.tsx:20-21). With no user the comparison is against
      `undefined`, which no string id equals. */
  function Mine(user: Option<User>): Enrollment -> bool {
    (e: Enrollment) => user.Some? && e.user.id == user.value.id
  }

  /** Enrolled when some enrollment of the course is the user's
      (CourseCard.tsx:20); a course sent without its enrollment list
      counts as not enrolled. */
  function IsEnrolled(course: Course, user: Option<User>): (r: bool)
    ensures r <==> user.Some? && course.enrollments.Some? &&
                   exists i :: 0 <= i < |course.enrollments.value| &&
                               course.enrollments.value[i].user.id == user.value.id
    ensures user.None? ==> !r
  {
    course.enrollments.Some? && Any(course.enrollments.value, Mine(user))
  }

  /** The user's enrollment in the course (CourseCard.tsx:21): the first
      one in the list, when the list names the user more than once. */
  function UserEnrollment(course: Course, user: Option<User>): (r: Option<Enrollment>)
    ensures r.Some? ==> user.Some? && course.enrollments.Some? && r.value in course.enrollments.value &&
                        r.value.user.id == user.value.id
    ensures r.Some? ==> user.Some? && course.enrollments.Some? &&
                        exists i :: 0 <= i < |course.enrollments.value| &&
                                    course.enrollments.value[i] == r.value &&
                                    forall j :: 0 <= j < i ==> course.enrollments.value[j].user.id != user.value.id
    ensures r.None? <==> !IsEnrolled(course, user)
  {
    if course.enrollments.None? then None
    else
      AnyIffFound(course.enrollments.value, Mine(user));
      FindFirst(course.enrollments.value, Mine(user))
  }

  /** A professor of the course when the user's enrollment holds the
      PROFESSOR role (CourseCard.tsx:22); only the first matching
      enrollment's role is consulted. */
  function IsProfessor(course: Course, user: Option<User>): (r: bool)
    ensures r <==> UserEnrollment(course, user).Some? && UserEnrollment(course, user).value.role == Professor
    ensures r ==> IsEnrolled(course, user)
  {
    match UserEnrollment(course, user)
    case None => false
    case Some(e) => e.role == Professor
  }

  /** The props of the card; `showEnrollButton` defaults to true and
      `showEditButton` to false. */
  datatype Props = Props(course: Course, showEnrollButton: Option<bool>, showEditButton: Option<bool>)

  /** The Edit link is shown only when it is asked for and the user is a
      professor of the course (CourseCard.tsx:90). */
  function ShowEdit(props: Props, user: Option<User>): (r: bool)
    ensures r <==> props.showEditButton == Some(true) && IsProfessor(props.course, user)
  {
    props.showEditButton.GetOr(false) && IsProfessor(props.course, user)
  }

  /** The Enroll button is shown when it is not switched off, someone is
      signed in and that user is not enrolled (CourseCard.tsx:99). */
  function ShowEnroll(props: Props, user: Option<User>, isAuthenticated: bool): (r: bool)
    ensures r <==> props.showEnrollButton != Some(false) && isAuthenticated && !IsEnrolled(props.course, user)
  {
    props.showEnrollButton.GetOr(true) && isAuthenticated && !IsEnrolled(props.course, user)
  }

  /** The Unenroll button is shown to an enrolled user who is not a
      professor of the course (CourseCard.tsx:109); the props do not affect it. */
  function ShowUnenroll(props: Props, user: Option<User>): (r: bool)
    ensures r <==> UserEnrollment(props.course, user).Some? && UserEnrollment(props.course, user).value.role == Student
  {
    IsEnrolled(props.course, user) && !IsProfessor(props.course, user)
  }

  /** Enroll and Unenroll are never offered together, and a professor of the
      course is offered neither: only the Edit link, when it is asked for. */
  lemma ButtonsExclusive(props: Props, user: Option<User>, isAuthenticated: bool)
    ensures !(ShowEnroll(props, user, isAuthenticated) && ShowUnenroll(props, user))
    ensures IsProfessor(props.course, user) ==>
              !ShowEnroll(props, user, isAuthenticated) && !ShowUnenroll(props, user)
    ensures ShowEdit(props, user) ==> !ShowEnroll(props, user, isAuthenticated)
  {
  }

  /** With no signed-in user the card offers no Edit link and no Unenroll
      button, and offers Enroll only when the auth store says signed in. */
  lemma SignedOutCard(props: Props, isAuthenticated: bool)
    ensures !ShowEdit(props, None) && !ShowUnenroll(props, None)
    ensures ShowEnroll(props, None, isAuthenticated) <==> props.showEnrollButton != Some(false) && isAuthenticated
  {
  }

  /** A user whose first enrollment in the course is as PROFESSOR counts as a
      professor even when a later row gives them another role. */
  lemma FirstEnrollmentDecides(course: Course, user: User, e: Enrollment, rest: seq<Enrollment>)
    requires e.user.id == user.id && e.role == Professor
    requires course.enrollments == Some([e] + rest)
    ensures IsProfessor(course, Some(user))
  {
    assert ([e] + rest)[0] == e;
  }

  /** The badge classes for each level (CourseCard.tsx:24-35). */
  function LevelColor(level: string): (r: string)
    ensures level == LevelName(Beginner) ==> r == "bg-green-100 text-green-800"
    ensures level == LevelName(Intermediate) ==> r == "bg-yellow-100 text-yellow-800"
    ensures level == LevelName(Advanced) ==> r == "bg-red-100 text-red-800"
    ensures level !in {LevelName(Beginner), LevelName(Intermediate), LevelName(Advanced)} ==>
              r == "bg-gray-100 text-gray-800"
  {
    if level == "BEGINNER" then "bg-green-100 text-green-800"
    else if level == "INTERMEDIATE" then "bg-yellow-100 text-yellow-800"
    else if level == "ADVANCED" then "bg-red-100 text-red-800"
    else "bg-gray-100 text-gray-800"
  }

  /** The three levels get three distinct colours, none of them the grey
      given to anything else. */
  lemma LevelColorsDistinct(a: CourseLevel, b: CourseLevel, other: string)
    requires other !in {LevelName(Beginner), LevelName(Intermediate), LevelName(Advanced)}
    ensures a != b ==> LevelColor(LevelName(a)) != LevelColor(LevelName(b))
    ensures LevelColor(LevelName(a)) != LevelColor(other)
  {
  }
}
