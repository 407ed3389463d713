# Course platform: resolver rules, identity resolution and client state in Dafny

This project models the logic of a small course platform. Users register and log in, browse courses, and enrol in or leave them. A professor of a course can edit or delete it. The backend is a GraphQL server over a relational database. The frontend is a React client with two zustand stores and a course card component. The model covers four parts.

- **Database and mutations** (`prisma.dfy`, `resolvers.dfy`).
  - The three tables (users, courses, enrollments) are rows in storage order.
  - Ids come from a counter and `createdAt` from a clock.
  - `TablesValid` is the database invariant:
    - unique ids;
    - unique emails;
    - courses stored in creation order;
    - one enrollment per (user, course) pair;
    - every enrollment referring to an existing user and course (the foreign keys).
  - The database client's writes are pure transitions: `UserCreate`, `CourseCreate`, `EnrollmentCreate`, `CourseUpdate`, `CourseDelete` with its cascade, and `EnrollmentDelete`.
  - Each mutation is a step function. It returns the resolver's result, or its error, together with the new tables. `Resolvers.Database` is the shared store as a class. Its resolver methods make the checks in the order the source makes them, then call the row writes. Each method is proved to make exactly the transition of its step function and to keep the invariant.
  - The queries (`courses`, `me`, `userEnrollments`, `courseEnrollments`) and the field resolvers are functions.
- **Identity resolution** (`auth.dfy`).
  - `ExtractToken` models the string replacement of auth.ts:30, which removes the first occurrence of the prefix "Bearer " wherever it stands.
  - `GetUser` models the empty-token guard, then verification, then the lookup. Every failure gives "no user".
  - `CreateContext` puts the two together.
  - JSON Web Tokens are a `TokenScheme` pair of functions. `Sound` states what the library guarantees: a signed token verifies back to its id.
  - bcrypt is a symbolic digest (`crypto.dfy`).
- **Client stores** (`client_store.dfy`).
  - `AuthStore` and `AppStore` are classes whose methods overwrite fields, as `set` does.
  - The new course lists are pure functions: prepend, replace by id, and remove by id.
  - Lemmas cover order, remove-after-add, idempotence, and keeping the selected course among the listed ones.
- **Course card** (`course_card.dfy`).
  - `IsEnrolled`, `UserEnrollment` and `IsProfessor` are computed from the course's enrollment list.
  - The Edit, Enroll and Unenroll visibility conditions are modelled, and so is the level badge colour.

Some behaviours of the code are proved as they stand:

- `enrollInCourse` accepts a caller-supplied PROFESSOR role, and that row then passes the edit and delete gate (`SelfAssignedProfessorPassesGate`).
- `unenrollFromCourse` lets a professor remove their own enrollment, while the course card never offers a professor the Unenroll button.
- `createCourse` makes two separate writes. When the creator's user row is gone, the enrollment write is refused, but the course row stays (`CreateCourseStep`).

Two more behaviours of the code, stated as they stand:

- `unenrollFromCourse` defines no error of its own for a missing enrollment; the database's "Record to delete does not exist" error reaches the caller.
- The bearer prefix is cut out wherever it first occurs, not only at the start of the header.

## Model

| member | source | states |
|---|---|---|
| Prisma.UserById | backend/src/resolvers.ts:278-282 | the `Enrollment.user` lookup finds a row holding the id, and finds none exactly when no row holds it |
| Prisma.UserByEmail | backend/src/resolvers.ts:97 | the lookup by email finds a row with that email, and none exactly when no row has it |
| Prisma.CourseById | backend/src/resolvers.ts:31-42 | the `course` query finds a course holding the id, and none exactly when no row holds it |
| Prisma.CourseIndex | backend/src/resolvers.ts:173-175 | the position that `course.update` rewrites holds the id; there is none exactly when the course lookup fails |
| Prisma.EnrollmentByPair | backend/src/resolvers.ts:210-217 | the lookup by the unique key `userId_courseId` finds a row of that pair, and none exactly when no row has the pair |
| Prisma.PairIndex | backend/src/resolvers.ts:239-246 | the position that the keyed delete removes holds the pair; there is none exactly when the pair lookup fails |
| Prisma.ProfessorEnrollment | backend/src/resolvers.ts:161-167 | the gate's `findFirst` finds a PROFESSOR row of the pair, and none exactly when no such row exists |
| Prisma.EnrollmentsOfUser | backend/src/resolvers.ts:73-81 | `userEnrollments` holds exactly the rows of that user |
| Prisma.EnrollmentsOfCourse | backend/src/resolvers.ts:83-91 | `courseEnrollments` holds exactly the rows of that course |
| Prisma.WithoutCourse | backend/src/resolvers.ts:202 | after `course.delete`, the course table holds exactly the rows not holding the id |
| Prisma.WithoutCourseEnrollments | backend/src/resolvers.ts:202 | the cascade keeps exactly the enrollments of other courses |
| Prisma.WithoutCourseRemovesOne | backend/src/resolvers.ts:202 | with unique course ids, deleting an existing course removes exactly its one row and keeps the order of the rest |
| Prisma.DistinctEnrollmentsOnePerPair | backend/src/resolvers.ts:210-221 | the stored enrollment constraint means no two rows share a (user, course) pair |
| Prisma.UserByIdFinds | backend/src/auth.ts:18-21 | with unique ids, the lookup by a row's id returns that very row |
| Prisma.UserByEmailFinds | backend/src/resolvers.ts:97 | with unique emails, the lookup by a row's email returns that very row |
| Prisma.FreshCourseHasNoEnrollment | backend/src/resolvers.ts:134-152 | under the foreign keys, no enrollment names the id the next created course receives, so the creator's enrollment never meets the unique key |
| Prisma.EmptyTablesValid | backend/src/resolvers.ts:5 | an empty database satisfies the invariant, so the store can start from one |
| Prisma.ProfessorGateFindsCourse | backend/src/resolvers.ts:161-175 | under the foreign keys, a caller who passes the professor gate names an existing course |
| Auth.IndexOf | backend/src/auth.ts:30 | the position found is where the pattern occurs first; there is none exactly when it occurs nowhere |
| Auth.ExtractToken | backend/src/auth.ts:30 | a missing header gives the empty token; a header without the prefix is kept whole; otherwise the token is the header with its first "Bearer " cut out |
| Auth.BearerHeaderToken | backend/src/auth.ts:30 | `Bearer <token>` yields exactly `<token>` |
| Auth.GetUser | backend/src/auth.ts:13-27 | the empty token gives null; a user results exactly when the token verifies and its id has a row; that user is the row's `{id, email, name}` |
| Auth.EmptyTokenNoLookup | backend/src/auth.ts:15 | for the empty token the result depends on neither the verifier nor the user table |
| Auth.SignedTokenResolves | backend/src/auth.ts:17-23 | a token signed for an existing user resolves to exactly that user's projection |
| Auth.OrphanTokenResolvesToNobody | backend/src/auth.ts:17-23 | a token signed for an id with no user row resolves to null |
| Auth.CreateContext | backend/src/auth.ts:29-37 | a missing header gives no user; any context user holds an id that has a row |
| Auth.BearerHeaderResolves | backend/src/auth.ts:29-37 | `Authorization: Bearer <signed token>` gives a context holding exactly the signed-for user |
| Resolvers.CoursesNewestFirst | backend/src/resolvers.ts:16-29 | the `courses` query returns every course, each once (a permutation of the table) |
| Resolvers.CoursesNewestFirstSorted | backend/src/resolvers.ts:25-27 | under the invariant, the `courses` result is strictly ordered by `createdAt`, newest first |
| Resolvers.Me | backend/src/resolvers.ts:45-58 | "Not authenticated" exactly when no user is in context; otherwise the caller's row, if it still exists, with exactly that user's enrollments |
| Resolvers.CourseEnrollmentsOnePerUser | backend/src/resolvers.ts:83-91 | under the unique key, a course's enrollment list names each user at most once |
| Resolvers.UserEnrollmentsOnePerCourse | backend/src/resolvers.ts:73-81 | under the unique key, a user's enrollment list names each course at most once |
| Resolvers.EnrollmentFieldsResolve | backend/src/resolvers.ts:277-288 | under the foreign keys, the `Enrollment.user` and `Enrollment.course` field resolvers always find their row |
| Resolvers.MessagesDistinct | backend/src/resolvers.ts:46-237 | distinct errors reach the client with distinct messages |
| Resolvers.Login | backend/src/resolvers.ts:96-109 | the only error is "Invalid credentials", for an unknown email and for a wrong password alike; success exactly when the email's row matches the password, with a token signed for that row's id |
| Resolvers.LoginFailuresLookAlike | backend/src/resolvers.ts:96-105 | every failed login carries the message "Invalid credentials", whether the email was unknown or the password wrong |
| Resolvers.LoginTokenResolves | backend/src/resolvers.ts:107 | the token that login returns, sent back as a bearer header, resolves to the user who logged in |
| Resolvers.ApplyUpdate | backend/src/resolvers.ts:173-175 | each field present in the update input replaces the old value; each absent field keeps it; id and `createdAt` never change |
| Resolvers.UserCreateKeepsValid | backend/src/resolvers.ts:118-124 | a user write keeps the invariant; the unique email index refuses it exactly when the email is taken; a stored row is what that email then finds |
| Resolvers.CourseCreateKeepsValid | backend/src/resolvers.ts:134-143 | a course row keeps the invariant; its id is new, so the course id set grows by exactly that id, and no enrollment names it yet |
| Resolvers.EnrollmentCreateKeepsValid | backend/src/resolvers.ts:223-233 | an enrollment write keeps the invariant: the foreign keys refuse a missing user or course, the unique key a second row for a pair |
| Resolvers.CourseUpdateKeepsValid | backend/src/resolvers.ts:173-183 | `course.update` keeps the invariant, keeps the row count, and rewrites exactly the row holding the id |
| Resolvers.CourseDeleteKeepsValid | backend/src/resolvers.ts:202 | `course.delete` keeps the invariant and leaves neither the course nor any enrollment in it; when the row existed, exactly that row goes |
| Resolvers.EnrollmentDeleteKeepsValid | backend/src/resolvers.ts:239-246 | the keyed delete keeps the invariant and keeps exactly the rows of other pairs |
| Resolvers.RegisterStep | backend/src/resolvers.ts:111-128 | "User already exists" exactly when the email is taken, with nothing stored; otherwise exactly one user is added, with that email, a bcrypt hash that matches the password, and a token signed for its id |
| Resolvers.RegisterKeepsValid | backend/src/resolvers.ts:111-128 | `register` keeps the invariant, and the new user is the one its email now finds |
| Resolvers.LoginAfterRegister | backend/src/resolvers.ts:96-128 | after `register`, `login` with the same password succeeds as the same user, with a token that verifies to that user's id; with the model's time-free signing it is the very payload `register` returned; with any other password login fails with "Invalid credentials" |
| Resolvers.CreateCourseStep | backend/src/resolvers.ts:131-155 | no user gives "Not authenticated" and no change; otherwise exactly one course is added; it succeeds exactly when the creator's row exists, adding exactly one PROFESSOR enrollment of the creator in the new course; otherwise the course stays, without the enrollment |
| Resolvers.CreateCourseKeepsValid | backend/src/resolvers.ts:131-155 | `createCourse` keeps the invariant, including one enrollment per pair, and the course it adds has a new id |
| Resolvers.UpdateCourseStep | backend/src/resolvers.ts:157-184 | any error leaves the tables unchanged; no user gives "Not authenticated"; no PROFESSOR row gives "Not authorized to edit this course"; success exactly when the gate passes and the course exists, rewriting only that row with the input applied |
| Resolvers.UpdateCourseKeepsValid | backend/src/resolvers.ts:157-184 | `updateCourse` keeps the invariant, never meets the missing-row error, and changes only the row holding the id |
| Resolvers.DeleteCourseStep | backend/src/resolvers.ts:186-204 | any error leaves the tables unchanged; no user gives "Not authenticated"; no PROFESSOR row gives "Not authorized to delete this course"; success returns true and removes the course with all its enrollments |
| Resolvers.DeleteCourseKeepsValid | backend/src/resolvers.ts:186-204 | `deleteCourse` keeps the invariant, never meets the missing-row error, removes exactly one course row, and leaves no enrollment in it |
| Resolvers.EnrollStep | backend/src/resolvers.ts:207-234 | any error leaves the tables unchanged; "Already enrolled in this course" exactly when the pair has a row; success adds exactly one enrollment with the given role, or STUDENT when none is given |
| Resolvers.EnrollKeepsValid | backend/src/resolvers.ts:207-234 | `enrollInCourse` keeps the invariant, including one enrollment per (user, course) |
| Resolvers.EnrollTwiceRejected | backend/src/resolvers.ts:210-221 | a second enrollment of the same user in the same course is refused, whatever the role |
| Resolvers.SelfAssignedProfessorPassesGate | backend/src/resolvers.ts:223-228 | a user who enrols as PROFESSOR then passes the update and delete gates on that course |
| Resolvers.CreatorPassesGate | backend/src/resolvers.ts:145-152 | the creator of a course may then update and delete it |
| Resolvers.UnenrollStep | backend/src/resolvers.ts:236-249 | any error leaves the tables unchanged; no user gives "Not authenticated"; the database's missing-record error exactly when the pair has no row; success exactly when a user is signed in and the pair has a row, returning true and removing exactly that row |
| Resolvers.ProfessorCanUnenroll | backend/src/resolvers.ts:236-249 | a PROFESSOR of the course who unenrolls succeeds, since the resolver does not look at the role |
| Resolvers.UnenrollKeepsValid | backend/src/resolvers.ts:236-249 | `unenrollFromCourse` keeps the invariant and keeps every row of another pair |
| Resolvers.EnrollThenUnenroll | backend/src/resolvers.ts:207-249 | unenrolling right after enrolling succeeds and restores the enrollment table |
| Resolvers.Database.constructor | backend/src/resolvers.ts:5 | the client opens a database that may already hold rows, as long as they satisfy the constraints; the store then holds exactly those tables |
| Resolvers.Database.CreateUserRow | backend/src/resolvers.ts:118-124 | keeps the invariant; refuses a taken email; otherwise stores the row and advances the id counter, as `UserCreate` |
| Resolvers.Database.CreateCourseRow | backend/src/resolvers.ts:134-143 | keeps the invariant; stores the row, stamped by the clock, as `CourseCreate` |
| Resolvers.Database.CreateEnrollmentRow | backend/src/resolvers.ts:223-233 | keeps the invariant; refuses a row whose user or course is missing or whose pair already has a row; otherwise stores it, as `EnrollmentCreate` |
| Resolvers.Database.UpdateCourseRow | backend/src/resolvers.ts:173-183 | keeps the invariant; refuses a missing id; otherwise rewrites that row, as `CourseUpdate` |
| Resolvers.Database.DeleteCourseRow | backend/src/resolvers.ts:202 | keeps the invariant; refuses a missing id; otherwise removes the course and its enrollments, as `CourseDelete` |
| Resolvers.Database.DeleteEnrollmentRow | backend/src/resolvers.ts:239-246 | keeps the invariant; refuses a missing pair; otherwise removes that row, as `EnrollmentDelete` |
| Resolvers.Database.Register | backend/src/resolvers.ts:111-128 | keeps the invariant and makes exactly the transition of `RegisterStep` |
| Resolvers.Database.CreateCourse | backend/src/resolvers.ts:131-155 | keeps the invariant and makes exactly the transition of `CreateCourseStep` |
| Resolvers.Database.UpdateCourse | backend/src/resolvers.ts:157-184 | keeps the invariant and makes exactly the transition of `UpdateCourseStep` |
| Resolvers.Database.DeleteCourse | backend/src/resolvers.ts:186-204 | keeps the invariant and makes exactly the transition of `DeleteCourseStep` |
| Resolvers.Database.EnrollInCourse | backend/src/resolvers.ts:207-234 | keeps the invariant and makes exactly the transition of `EnrollStep` |
| Resolvers.Database.UnenrollFromCourse | backend/src/resolvers.ts:236-249 | keeps the invariant and makes exactly the transition of `UnenrollStep` |
| ClientStore.AuthStore.constructor | frontend/src/store/index.ts:51-53 | starts with no user, no token, signed out |
| ClientStore.AuthStore.Login | frontend/src/store/index.ts:54-59 | sets the user, the token and `isAuthenticated = true` |
| ClientStore.AuthStore.Logout | frontend/src/store/index.ts:60-65 | resets the user, the token and the flag to null, null, false |
| ClientStore.AuthStore.UpdateUser | frontend/src/store/index.ts:66 | changes the user and nothing else, keeping the store consistent |
| ClientStore.Prepend | frontend/src/store/index.ts:97 | the new course comes first, followed by the old list; the length grows by one |
| ClientStore.ReplaceById | frontend/src/store/index.ts:100 | the length and every position's id are kept; exactly the courses holding the id are replaced |
| ClientStore.RemoveById | frontend/src/store/index.ts:105 | the list keeps exactly the courses not holding the id |
| ClientStore.RemoveByIdKeepsOrder | frontend/src/store/index.ts:105 | each remaining course appears once and in its relative order: the new list sits at strictly increasing positions of the old one, and those positions include every course not holding the id |
| ClientStore.RemoveAbsentId | frontend/src/store/index.ts:105 | removing an id that no course holds leaves the list unchanged |
| ClientStore.RemoveAfterAdd | frontend/src/store/index.ts:97-105 | `removeCourse(c.id)` after `addCourse(c)` restores the list when no course held that id |
| ClientStore.ReplaceByIdIdempotent | frontend/src/store/index.ts:100 | applying the same update twice equals applying it once |
| ClientStore.ReplaceAbsentId | frontend/src/store/index.ts:100 | an update whose id no course holds leaves the list unchanged |
| ClientStore.AddKeepsSelectionListed | frontend/src/store/index.ts:97 | `addCourse` keeps a listed selection listed |
| ClientStore.UpdateKeepsSelectionListed | frontend/src/store/index.ts:98-102 | `updateCourse` keeps a listed selection listed: a replaced selection is the replaced list element |
| ClientStore.RemoveKeepsSelectionListed | frontend/src/store/index.ts:103-107 | `removeCourse` keeps a listed selection listed, or clears it |
| ClientStore.AppStore.constructor | frontend/src/store/index.ts:89-92 | starts with no courses, no selection, not loading, no error |
| ClientStore.AppStore.SetCourses | frontend/src/store/index.ts:93 | changes the list and nothing else |
| ClientStore.AppStore.SetSelectedCourse | frontend/src/store/index.ts:94 | changes the selection and nothing else |
| ClientStore.AppStore.SetLoading | frontend/src/store/index.ts:95 | changes the loading flag and nothing else |
| ClientStore.AppStore.SetError | frontend/src/store/index.ts:96 | changes the error and nothing else |
| ClientStore.AppStore.AddCourse | frontend/src/store/index.ts:97 | prepends the course and changes nothing else; keeps a listed selection listed |
| ClientStore.AppStore.UpdateCourse | frontend/src/store/index.ts:98-102 | replaces by id and swaps in the new course for the selection only when the ids match; keeps a listed selection listed |
| ClientStore.AppStore.RemoveCourse | frontend/src/store/index.ts:103-107 | removes by id and clears the selection only when the ids match; keeps a listed selection listed |
| CourseCard.IsEnrolled | frontend/src/components/CourseCard.tsx:20 | true exactly when a user is signed in and some enrollment's user id equals theirs; false with no user or no list |
| CourseCard.UserEnrollment | frontend/src/components/CourseCard.tsx:21 | the first enrollment of the signed-in user in the list (no earlier entry is theirs); there is none exactly when the user is not enrolled |
| CourseCard.IsProfessor | frontend/src/components/CourseCard.tsx:22 | true exactly when the user's first enrollment has role PROFESSOR; implies enrolled |
| CourseCard.ShowEdit | frontend/src/components/CourseCard.tsx:90 | the Edit link shows exactly when `showEditButton` is passed as true and the user is a professor of the course |
| CourseCard.ShowEnroll | frontend/src/components/CourseCard.tsx:99 | the Enroll button shows exactly when `showEnrollButton` is not false, the user is signed in and not enrolled |
| CourseCard.ShowUnenroll | frontend/src/components/CourseCard.tsx:109 | the Unenroll button shows exactly when the user's first enrollment has role STUDENT |
| CourseCard.ButtonsExclusive | frontend/src/components/CourseCard.tsx:90-117 | Enroll and Unenroll never show together; a professor is offered neither; the Edit link never shows beside Enroll |
| CourseCard.SignedOutCard | frontend/src/components/CourseCard.tsx:90-117 | with no user there is no Edit link and no Unenroll button, and Enroll depends only on the prop and the auth flag |
| CourseCard.FirstEnrollmentDecides | frontend/src/components/CourseCard.tsx:21-22 | a first matching enrollment with role PROFESSOR makes the user a professor, whatever later rows say |
| CourseCard.LevelColor | frontend/src/components/CourseCard.tsx:24-35 | BEGINNER is green, INTERMEDIATE yellow and ADVANCED red; any other string is grey |
| CourseCard.LevelColorsDistinct | frontend/src/components/CourseCard.tsx:24-35 | the three levels get three distinct classes, none equal to the grey default |

## Left out

- Database internals. The model assumes four behaviours of the unseen database schema and client, each as an explicit transition:
  - the unique indexes refuse a user row with a taken email and a second enrollment row for a (user, course) pair;
  - enrollment creation checks the foreign keys;
  - course deletion cascades to the course's enrollments;
  - an update or delete of a missing row is an error.
  The messages of these database errors are short stand-ins for the database client's longer texts.
- Resolvers.UpdateCourseStep: an input field passed explicitly as `null` is treated as absent. The database's own handling of `null` for a required column is not modelled.
- Identifiers are natural numbers drawn from one counter, not generated strings. `createdAt` is a counter. `updatedAt` is not modelled on the backend.
- The nested `include` objects of each query are not built. The model returns rows, and the lookups that the field resolvers perform are modelled (`UserById`, `CourseById`, `EnrollmentsOfUser`, `EnrollmentsOfCourse`).
- The `users` query (backend/src/resolvers.ts:60-70) returns the whole user table. There is nothing to state about it beyond that.
- Concurrency. Requests run one at a time, so the check-then-insert race of `enrollInCourse` is not represented. The two writes of `createCourse` are sequential, and the partial outcome when the second one fails is modelled.
- Cryptography is idealised:
  - a bcrypt digest keeps the password it was made from, so no two passwords collide, and one-wayness is not modelled;
  - the random salt is a parameter;
  - JWT signing and verification are parameters, with `Sound` as their contract;
  - the secret and its environment default are not modelled.
- Resolvers.LoginAfterRegister: the model's `sign` is a function of the user id alone. jsonwebtoken also stamps an `iat` issue-time claim, so two signings for the same id made in different seconds give different tokens. The second ensures (login returns the very payload of `register`) therefore holds in the source only within the same second. The first ensures (the same user, and a token that verifies to the user's id) does not depend on this.
- Resolvers.LoginAfterRegister: bcrypt uses only the first 72 bytes of a password, so in the source two passwords that agree on those bytes both log in. The third ensures rests on the symbolic `Compare`, which compares whole passwords, and does not hold for such passwords.
- Auth.GetUser: a database failure during the lookup also becomes null in the source. The model has no database failures, only verification failures and missing rows.
- The zustand `persist` middleware and the `localStorage` writes in `login` and `logout` are I/O and are not modelled.
- Course card: the `handleEnroll` and `handleUnenroll` handlers, toasts, loading flags and markup are not modelled. The handlers only call the mutations modelled above.
- The HTTP server bootstrap (backend/src/server.ts), the GraphQL schema text (backend/src/schema.ts, used only for input shapes and defaults), the client query strings (frontend/src/lib/graphql.ts), the seed script and the UI pages are not part of this model.
