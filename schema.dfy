/** The enumerations and identifier type of the GraphQL schema
    (backend/src/schema.ts), shared by the backend and the frontend. */
module Schema {

  /** GraphQL `ID`. The database generates fresh identifiers; the model
      draws them from a counter, so they are natural numbers. */
  type Id = nat

  /** A user's role on one course: a per-course join attribute, not a global one. */
  datatype Role = Student | Professor

  datatype CourseLevel = Beginner | Intermediate | Advanced

  /** The enum value as it travels over the wire. */
  function LevelName(level: CourseLevel): string {
    match level
    case Beginner => "BEGINNER"
    case Intermediate => "INTERMEDIATE"
    case Advanced => "ADVANCED"
  }
}
