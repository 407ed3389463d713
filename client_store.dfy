/** The client-side state (frontend/src/store/index.ts): the authentication
    store and the application store holding the course list. Each store is
    an object whose fields `set` overwrites; every new value is a pure
    function of the old state, built with spread, `map` and `filter`. */
module ClientStore {
  import opened Wrappers
  import opened Schema
  import opened Seqs

  /** The shapes the client receives from the API. Identifiers and
      timestamps arrive as strings; the level is kept as the string the
      server sent, since the client compares it with the enum's values. */
  datatype User = User(id: string, name: string, email: string, enrollments: Option<seq<Enrollment>>)

  datatype Course = Course(id: string, title: string, description: string, level: string,
                           enrollments: Option<seq<Enrollment>>, createdAt: string, updatedAt: string)

  datatype Enrollment = Enrollment(id: string, user: User, course: Course, role: Role)

  // The authentication store (`useAuthStore`)

  datatype AuthState = AuthState(user: Option<User>, token: Option<string>, isAuthenticated: bool)

  /** Signed in exactly when a token is held, and then with a user. */
  predicate AuthConsistent(s: AuthState) {
    (s.isAuthenticated <==> s.token.Some?) && (s.isAuthenticated ==> s.user.Some?)
  }

  class AuthStore {
    var user: Option<User>
    var token: Option<string>
    var isAuthenticated: bool

    function State(): AuthState
      reads this
    {
      AuthState(user, token, isAuthenticated)
    }

    constructor ()
      ensures State() == AuthState(None, None, false)
      ensures AuthConsistent(State())
    {
      user, token, isAuthenticated := None, None, false;
    }

    /** `login(token, user)`: holds the token and the user and is signed in. */
    method Login(token: string, user: User)
      modifies this
      ensures State() == AuthState(Some(user), Some(token), true)
      ensures AuthConsistent(State())
    {
      this.user, this.token, isAuthenticated := Some(user), Some(token), true;
    }

    /** `logout()`: back to the initial state, whatever came before. */
    method Logout()
      modifies this
      ensures State() == AuthState(None, None, false)
      ensures AuthConsistent(State())
    {
      user, token, isAuthenticated := None, None, false;
    }

    /** `updateUser(user)`: replaces the user and nothing else. */
    method UpdateUser(user: User)
      modifies this
      ensures State() == old(State()).(user := Some(user))
      ensures AuthConsistent(old(State())) ==> AuthConsistent(State())
    {
      this.user := Some(user);
    }
  }

  // The course list operations of the application store (`useAppStore`)

  predicate HasId(c: Course, id: string) {
    c.id == id
  }

  /** The new course in front of the old list (index.ts:97). */
  function Prepend(courses: seq<Course>, course: Course): (r: seq<Course>)
    ensures |r| == |courses| + 1 && r[0] == course && r[1..] == courses
  {
    [course] + courses
  }

  /** Each course holding the new course's id is swapped for it, every other
      stays where it is (index.ts:100). */
  function ReplaceById(courses: seq<Course>, course: Course): (r: seq<Course>)
    ensures |r| == |courses|
    ensures forall i :: 0 <= i < |courses| ==>
              r[i].id == courses[i].id &&
              r[i] == if HasId(courses[i], course.id) then course else courses[i]
  {
    if courses == [] then []
    else [if HasId(courses[0], course.id) then course else courses[0]] + ReplaceById(courses[1..], course)
  }

  /** The list without the courses holding the id (index.ts:105). */
  function RemoveById(courses: seq<Course>, id: string): (r: seq<Course>)
    ensures forall c :: c in r <==> c in courses && !HasId(c, id)
  {
    Filter(courses, (c: Course) => !HasId(c, id))
  }

  /** Removal keeps each remaining course exactly once and in its relative
      order: the new list sits in the old one at strictly increasing
      positions, and those positions are all the positions of courses not
      holding the id. */
  lemma RemoveByIdKeepsOrder(courses: seq<Course>, id: string)
    ensures exists f :: EmbedsAt(RemoveById(courses, id), courses, f) &&
                        forall j :: 0 <= j < |courses| && !HasId(courses[j], id) ==> j in f
  {
    var f := FilterPositions(courses, (c: Course) => !HasId(c, id));
    assert EmbedsAt(RemoveById(courses, id), courses, f);
    assert Covers(courses, (c: Course) => !HasId(c, id), f);
  }

  /** Removing an id no course holds leaves the list as it was. */
  lemma RemoveAbsentId(courses: seq<Course>, id: string)
    requires forall j :: 0 <= j < |courses| ==> !HasId(courses[j], id)
    ensures RemoveById(courses, id) == courses
  {
    FilterAll(courses, (c: Course) => !HasId(c, id));
  }

  /** Removing a course right after adding it gives back the list, when no
      course in the list held its id. */
  lemma RemoveAfterAdd(courses: seq<Course>, course: Course)
    requires forall j :: 0 <= j < |courses| ==> courses[j].id != course.id
    ensures RemoveById(Prepend(courses, course), course.id) == courses
  {
    var p := (c: Course) => !HasId(c, course.id);
    FilterAll(courses, p);
    assert Prepend(courses, course)[1..] == courses;
  }

  /** Replacing twice with the same course is replacing once. */
  lemma ReplaceByIdIdempotent(courses: seq<Course>, course: Course)
    ensures ReplaceById(ReplaceById(courses, course), course) == ReplaceById(courses, course)
  {
  }

  /** Replacing by an id no course holds leaves the list as it was. */
  lemma ReplaceAbsentId(courses: seq<Course>, course: Course)
    requires forall j :: 0 <= j < |courses| ==> courses[j].id != course.id
    ensures ReplaceById(courses, course) == courses
  {
  }

  /** `selectedCourse` after `updateCourse(course)`: replaced when it holds the id. */
  function SelectedAfterUpdate(selected: Option<Course>, course: Course): Option<Course> {
    if selected.Some? && HasId(selected.value, course.id) then Some(course) else selected
  }

  /** `selectedCourse` after `removeCourse(id)`: cleared when it holds the id. */
  function SelectedAfterRemove(selected: Option<Course>, id: string): Option<Course> {
    if selected.Some? && HasId(selected.value, id) then None else selected
  }

  /** The selected course, if any, is one of the listed courses. */
  predicate SelectionListed(courses: seq<Course>, selected: Option<Course>) {
    selected.None? || selected.value in courses
  }

  /** `addCourse`, `updateCourse` and `removeCourse` keep a selected course
      among the listed ones (`setCourses` and `setSelectedCourse` need not). */
  lemma AddKeepsSelectionListed(courses: seq<Course>, selected: Option<Course>, course: Course)
    requires SelectionListed(courses, selected)
    ensures SelectionListed(Prepend(courses, course), selected)
  {
  }

  lemma UpdateKeepsSelectionListed(courses: seq<Course>, selected: Option<Course>, course: Course)
    requires SelectionListed(courses, selected)
    ensures SelectionListed(ReplaceById(courses, course), SelectedAfterUpdate(selected, course))
  {
    if selected.Some? {
      var k :| 0 <= k < |courses| && courses[k] == selected.value;
      assert ReplaceById(courses, course)[k] == SelectedAfterUpdate(selected, course).value;
    }
  }

  lemma RemoveKeepsSelectionListed(courses: seq<Course>, selected: Option<Course>, id: string)
    requires SelectionListed(courses, selected)
    ensures SelectionListed(RemoveById(courses, id), SelectedAfterRemove(selected, id))
  {
  }

  datatype AppState = AppState(courses: seq<Course>, selectedCourse: Option<Course>, loading: bool, error: Option<string>)

  class AppStore {
    var courses: seq<Course>
    var selectedCourse: Option<Course>
    var loading: bool
    var error: Option<string>

    function State(): AppState
      reads this
    {
      AppState(courses, selectedCourse, loading, error)
    }

    constructor ()
      ensures State() == AppState([], None, false, None)
    {
      courses, selectedCourse, loading, error := [], None, false, None;
    }

    /** `setCourses`: replaces the list and nothing else. */
    method SetCourses(courses: seq<Course>)
      modifies this
      ensures State() == old(State()).(courses := courses)
    {
      this.courses := courses;
    }

    /** `setSelectedCourse`: replaces the selection and nothing else. */
    method SetSelectedCourse(course: Option<Course>)
      modifies this
      ensures State() == old(State()).(selectedCourse := course)
    {
      selectedCourse := course;
    }

    /** `setLoading`: replaces the flag and nothing else. */
    method SetLoading(loading: bool)
      modifies this
      ensures State() == old(State()).(loading := loading)
    {
      this.loading := loading;
    }

    /** `setError`: replaces the error and nothing else. */
    method SetError(error: Option<string>)
      modifies this
      ensures State() == old(State()).(error := error)
    {
      this.error := error;
    }

    /** `addCourse`: the course goes first, the list grows by one, the rest
        of the state stays. */
    method AddCourse(course: Course)
      modifies this
      ensures State() == old(State()).(courses := Prepend(old(courses), course))
      ensures |courses| == |old(courses)| + 1 && courses[0] == course
      ensures SelectionListed(old(courses), old(selectedCourse)) ==> SelectionListed(courses, selectedCourse)
    {
      if SelectionListed(courses, selectedCourse) {
        AddKeepsSelectionListed(courses, selectedCourse, course);
      }
      courses := [course] + courses;
    }

    /** `updateCourse`: the list keeps its length and positions with the
        matching courses replaced; the selection is replaced when it holds
        the id. */
    method UpdateCourse(course: Course)
      modifies this
      ensures State() == old(State()).(courses := ReplaceById(old(courses), course),
                                       selectedCourse := SelectedAfterUpdate(old(selectedCourse), course))
      ensures SelectionListed(old(courses), old(selectedCourse)) ==> SelectionListed(courses, selectedCourse)
    {
      if SelectionListed(courses, selectedCourse) {
        UpdateKeepsSelectionListed(courses, selectedCourse, course);
      }
      courses, selectedCourse := ReplaceById(courses, course), SelectedAfterUpdate(selectedCourse, course);
    }

    /** `removeCourse`: every course holding the id goes, the others keep
        their order; the selection is cleared when it holds the id. */
    method RemoveCourse(id: string)
      modifies this
      ensures State() == old(State()).(courses := RemoveById(old(courses), id),
                                       selectedCourse := SelectedAfterRemove(old(selectedCourse), id))
      ensures SelectionListed(old(courses), old(selectedCourse)) ==> SelectionListed(courses, selectedCourse)
    {
      if SelectionListed(courses, selectedCourse) {
        RemoveKeepsSelectionListed(courses, selectedCourse, id);
      }
      courses, selectedCourse := RemoveById(courses, id), SelectedAfterRemove(selectedCourse, id);
    }
  }
}
