/** The five entity records of the quiz store, one per table, with the
    column-level rules each row must satisfy before the database accepts it.
    A C# reference-typed property (a `string`) and an `int?` may hold `null`
    in memory, so they are `Option`s here; value-typed columns (`int`,
    `DateTime`) are never null. Dates are seconds since 0001-01-01. */
module Entities {
  import opened Base

  /** `[MaxLength(128)]` on ApplicationUser.UserName and the matching column cap. */
  const UserNameMaxLength: nat := 128

  /** ApplicationUser, table Users_t. `kind` is the `Type` column. */
  datatype User = User(
    id: Option<string>,
    userName: Option<string>,
    email: Option<string>,
    displayName: Option<string>,
    notes: Option<string>,
    kind: int,
    flags: int,
    createdDate: int,
    lastModifiedDate: int)

  /** Quiz, table Quizzes_t. `flags` is the column the migration spells `Falgs`. */
  datatype Quiz = Quiz(
    id: int,
    userId: Option<string>,
    title: Option<string>,
    description: Option<string>,
    text: Option<string>,
    notes: Option<string>,
    kind: int,
    flags: int,
    viewCount: int,
    createdDate: int,
    lastModifiedDate: int)

  /** Question, table Questions_t. */
  datatype Question = Question(
    id: int,
    quizId: int,
    text: Option<string>,
    notes: Option<string>,
    kind: int,
    flags: int,
    createdDate: int,
    lastModifiedDate: int)

  /** Answer, table Answer_t. `value` is the mandatory score contribution. */
  datatype Answer = Answer(
    id: int,
    questionId: int,
    text: Option<string>,
    value: int,
    notes: Option<string>,
    kind: int,
    flags: int,
    createdDate: int,
    lastModifiedDate: int)

  /** Result, table Result_t. The two bounds are independently optional and
      nothing orders them. */
  datatype Result = Result(
    id: int,
    quizId: int,
    text: Option<string>,
    minValue: Option<int>,
    maxValue: Option<int>,
    notes: Option<string>,
    kind: int,
    flags: int,
    createdDate: int,
    lastModifiedDate: int)

  /** Id (the key), UserName (at most 128 characters) and Email are required;
      DisplayName and Notes may be null. */
  predicate ValidUser(u: User) {
    && u.id.Some?
    && u.userName.Some? && |u.userName.value| <= UserNameMaxLength
    && u.email.Some?
  }

  /** UserId and Title are required; Description, Text and Notes may be null. */
  predicate ValidQuiz(q: Quiz) {
    q.userId.Some? && q.title.Some?
  }

  /** Text is required; Notes may be null. */
  predicate ValidQuestion(q: Question) {
    q.text.Some?
  }

  /** Text is required; Notes may be null. */
  predicate ValidAnswer(a: Answer) {
    a.text.Some?
  }

  /** Text is required; MinValue, MaxValue and Notes may be null. */
  predicate ValidResult(r: Result) {
    r.text.Some?
  }
}
