/** The relational store behind the controllers: one map per table from key
    to row, and the next value of each identity column. Inserts and updates
    are checked against the table constraints of the migration (NOT NULL,
    length cap, foreign key, primary key) and refused as a whole when one
    fails; deletes cascade along the foreign keys, as the database does. */
module Database {
  import opened Base
  import opened Order
  import opened Entities
  import opened Migration

  /** The next value each identity column hands out (seed 1, increment 1).
      Users have no identity column: their key is a GUID string. */
  datatype Identity = Identity(quiz: int, question: int, answer: int, result: int)

  datatype Store = Store(
    users: map<string, User>,
    quizzes: map<int, Quiz>,
    questions: map<int, Question>,
    answers: map<int, Answer>,
    results: map<int, Result>,
    next: Identity)

  const EmptyStore := Store(map[], map[], map[], map[], map[], Identity(1, 1, 1, 1))

  /** Why the database refuses a write (a DbUpdateException in the source). */
  datatype Violation =
    | NotNull(table: TableName, column: ColumnName)
    | TooLong(table: TableName, column: ColumnName)
    | ForeignKeyViolation(constraint: string)
    | DuplicateKey(table: TableName)

  /** The outcome of a checked write: the new store and the stored row, or
      the violated constraint (and then nothing was written). */
  datatype Saved<T> = Saved(store: Store, row: T) | Rejected(violation: Violation)

  // ---------------------------------------------------------------------
  // Integrity

  /** Every row is stored under its own id. */
  ghost predicate KeysMatch(s: Store) {
    && (forall k :: k in s.users ==> s.users[k].id == Some(k))
    && (forall k :: k in s.quizzes ==> s.quizzes[k].id == k)
    && (forall k :: k in s.questions ==> s.questions[k].id == k)
    && (forall k :: k in s.answers ==> s.answers[k].id == k)
    && (forall k :: k in s.results ==> s.results[k].id == k)
  }

  /** Every row satisfies its table's column constraints. */
  ghost predicate RowsValid(s: Store) {
    && (forall k :: k in s.users ==> ValidUser(s.users[k]))
    && (forall k :: k in s.quizzes ==> ValidQuiz(s.quizzes[k]))
    && (forall k :: k in s.questions ==> ValidQuestion(s.questions[k]))
    && (forall k :: k in s.answers ==> ValidAnswer(s.answers[k]))
    && (forall k :: k in s.results ==> ValidResult(s.results[k]))
  }

  /** Every foreign key refers to an existing row. */
  ghost predicate ReferencesResolve(s: Store) {
    && (forall k :: k in s.quizzes ==> s.quizzes[k].userId.Some? && s.quizzes[k].userId.value in s.users)
    && (forall k :: k in s.questions ==> s.questions[k].quizId in s.quizzes)
    && (forall k :: k in s.results ==> s.results[k].quizId in s.quizzes)
    && (forall k :: k in s.answers ==> s.answers[k].questionId in s.questions)
  }

  /** No key has reached the value its identity column hands out next. */
  ghost predicate KeysBelowIdentity(s: Store) {
    && (forall k :: k in s.quizzes ==> k < s.next.quiz)
    && (forall k :: k in s.questions ==> k < s.next.question)
    && (forall k :: k in s.answers ==> k < s.next.answer)
    && (forall k :: k in s.results ==> k < s.next.result)
  }

  /** What the database guarantees of every committed state. */
  ghost predicate Consistent(s: Store) {
    KeysMatch(s) && RowsValid(s) && ReferencesResolve(s) && KeysBelowIdentity(s)
  }

  lemma EmptyStoreIsConsistent()
    ensures Consistent(EmptyStore)
  {
  }

  // ---------------------------------------------------------------------
  // Navigation collections (one-to-many relations)

  /** ApplicationUser.Quizzes: the quizzes whose UserId is `userId`. */
  function QuizzesOf(s: Store, userId: string): set<int> {
    set k | k in s.quizzes && s.quizzes[k].userId == Some(userId)
  }

  /** The questions of any of the quizzes `quizIds`; Quiz.Questions for one quiz. */
  function QuestionsOf(s: Store, quizIds: set<int>): set<int> {
    set k | k in s.questions && s.questions[k].quizId in quizIds
  }

  /** Quiz.Results: the results whose QuizId is `quizId`. */
  function ResultsOf(s: Store, quizId: int): set<int> {
    set k | k in s.results && s.results[k].quizId == quizId
  }

  /** Question.Answers: the answers whose QuestionId is `questionId`. */
  function AnswersOf(s: Store, questionId: int): set<int> {
    set k | k in s.answers && s.answers[k].questionId == questionId
  }

  /** In a consistent store every quiz belongs to exactly one user, every
      question and result to exactly one quiz, and every answer to exactly
      one question. */
  lemma OwnershipIsExclusive(s: Store)
    requires Consistent(s)
    ensures forall k :: k in s.quizzes ==>
      s.quizzes[k].userId.value in s.users && k in QuizzesOf(s, s.quizzes[k].userId.value)
    ensures forall k, u, v :: k in QuizzesOf(s, u) && k in QuizzesOf(s, v) ==> u == v
    ensures forall k :: k in s.questions ==>
      s.questions[k].quizId in s.quizzes && k in QuestionsOf(s, {s.questions[k].quizId})
    ensures forall k, z, y :: k in QuestionsOf(s, {z}) && k in QuestionsOf(s, {y}) ==> z == y
    ensures forall k :: k in s.results ==>
      s.results[k].quizId in s.quizzes && k in ResultsOf(s, s.results[k].quizId)
    ensures forall k, z, y :: k in ResultsOf(s, z) && k in ResultsOf(s, y) ==> z == y
    ensures forall k :: k in s.answers ==>
      s.answers[k].questionId in s.questions && k in AnswersOf(s, s.answers[k].questionId)
    ensures forall k, q, p :: k in AnswersOf(s, q) && k in AnswersOf(s, p) ==> q == p
  {
  }

  // ---------------------------------------------------------------------
  // Table scans

  /** The rows of `m` with keys in `ks`, in ascending key order: the order a
      clustered primary-key scan usually gives, and one of those SQL Server
      may return when a query has no ORDER BY. */
  function Scan<V>(m: map<int, V>, ks: set<int>): (r: seq<V>)
    requires ks <= m.Keys
    ensures |r| == |ks|
    ensures forall k :: k in ks ==> m[k] in r
    ensures forall i :: 0 <= i < |r| ==> exists k :: k in ks && r[i] == m[k]
  {
    IntLeIsTotalOrder();
    var keys := Ascending(ks, IntLe);
    var r := seq(|keys|, i requires 0 <= i < |keys| => m[keys[i]]);
    assert forall k :: k in ks ==> m[k] in r by {
      forall k | k in ks ensures m[k] in r {
        var i :| 0 <= i < |keys| && keys[i] == k;
        assert r[i] == m[k];
      }
    }
    r
  }

  /** Scanning rows stored under their own ids yields strictly ascending ids. */
  lemma ScanIdsAscend<V>(m: map<int, V>, ks: set<int>, id: V -> int)
    requires ks <= m.Keys
    requires forall k :: k in m ==> id(m[k]) == k
    ensures var r := Scan(m, ks);
            forall i, j :: 0 <= i < j < |r| ==> id(r[i]) < id(r[j])
  {
    IntLeIsTotalOrder();
    var keys := Ascending(ks, IntLe);
    var r := Scan(m, ks);
    assert r == seq(|keys|, i requires 0 <= i < |keys| => m[keys[i]]);
    forall i, j | 0 <= i < j < |r| ensures id(r[i]) < id(r[j]) {
      assert IntLe(keys[i], keys[j]) && keys[i] != keys[j];
    }
  }

  // ---------------------------------------------------------------------
  // Checked inserts: the store assigns the next identity value as the id

  function UserViolation(s: Store, u: User): Option<Violation> {
    if u.id.None? then Some(NotNull(Users_t, Id))
    else if u.userName.None? then Some(NotNull(Users_t, UserName))
    else if |u.userName.value| > UserNameMaxLength then Some(TooLong(Users_t, UserName))
    else if u.email.None? then Some(NotNull(Users_t, Email))
    else if u.id.value in s.users then Some(DuplicateKey(Users_t))
    else None
  }

  /** Inserts a user under its own (GUID) id. */
  function InsertUser(s: Store, u: User): (r: Saved<User>)
    ensures r.Saved? <==> ValidUser(u) && u.id.value !in s.users
    ensures r.Saved? ==> r.row == u && r.store == s.(users := s.users[u.id.value := u])
    ensures r.Rejected? ==> UserViolation(s, u) == Some(r.violation)
  {
    match UserViolation(s, u)
    case Some(v) => Rejected(v)
    case None => Saved(s.(users := s.users[u.id.value := u]), u)
  }

  function QuizViolation(s: Store, q: Quiz): Option<Violation> {
    if q.title.None? then Some(NotNull(Quizzes_t, Title))
    else if q.userId.None? then Some(NotNull(Quizzes_t, UserId))
    else if q.userId.value !in s.users then Some(ForeignKeyViolation("FK_Quizzes_t_Users_t_UserId"))
    else None
  }

  /** Inserts a quiz; its id is the next identity value, whatever `q.id` says. */
  function InsertQuiz(s: Store, q: Quiz): (r: Saved<Quiz>)
    ensures r.Saved? <==> ValidQuiz(q) && q.userId.value in s.users
    ensures r.Saved? ==> r.row == q.(id := s.next.quiz)
    ensures r.Saved? ==> r.store == s.(quizzes := s.quizzes[r.row.id := r.row], next := s.next.(quiz := s.next.quiz + 1))
  {
    if QuizViolation(s, q).Some? then Rejected(QuizViolation(s, q).value)
    else
      var row := q.(id := s.next.quiz);
      Saved(s.(quizzes := s.quizzes[row.id := row], next := s.next.(quiz := s.next.quiz + 1)), row)
  }

  function QuestionViolation(s: Store, q: Question): Option<Violation> {
    if q.text.None? then Some(NotNull(Questions_t, Text))
    else if q.quizId !in s.quizzes then Some(ForeignKeyViolation("FK_Questions_t_Quizzes_t_QuizId"))
    else None
  }

  /** Inserts a question; its id is the next identity value. */
  function InsertQuestion(s: Store, q: Question): (r: Saved<Question>)
    ensures r.Saved? <==> ValidQuestion(q) && q.quizId in s.quizzes
    ensures r.Saved? ==> r.row == q.(id := s.next.question)
    ensures r.Saved? ==> r.store == s.(questions := s.questions[r.row.id := r.row], next := s.next.(question := s.next.question + 1))
  {
    if QuestionViolation(s, q).Some? then Rejected(QuestionViolation(s, q).value)
    else
      var row := q.(id := s.next.question);
      Saved(s.(questions := s.questions[row.id := row], next := s.next.(question := s.next.question + 1)), row)
  }

  function AnswerViolation(s: Store, a: Answer): Option<Violation> {
    if a.text.None? then Some(NotNull(Answer_t, Text))
    else if a.questionId !in s.questions then Some(ForeignKeyViolation("FK_Answer_t_Questions_t_QuestionId"))
    else None
  }

  /** Inserts an answer; its id is the next identity value. */
  function InsertAnswer(s: Store, a: Answer): (r: Saved<Answer>)
    ensures r.Saved? <==> ValidAnswer(a) && a.questionId in s.questions
    ensures r.Saved? ==> r.row == a.(id := s.next.answer)
    ensures r.Saved? ==> r.store == s.(answers := s.answers[r.row.id := r.row], next := s.next.(answer := s.next.answer + 1))
  {
    if AnswerViolation(s, a).Some? then Rejected(AnswerViolation(s, a).value)
    else
      var row := a.(id := s.next.answer);
      Saved(s.(answers := s.answers[row.id := row], next := s.next.(answer := s.next.answer + 1)), row)
  }

  function ResultViolation(s: Store, r: Result): Option<Violation> {
    if r.text.None? then Some(NotNull(Result_t, Text))
    else if r.quizId !in s.quizzes then Some(ForeignKeyViolation("FK_Result_t_Quizzes_t_QuizId"))
    else None
  }

  /** Inserts a result; its id is the next identity value. No check relates
      MinValue and MaxValue. */
  function InsertResult(s: Store, res: Result): (r: Saved<Result>)
    ensures r.Saved? <==> ValidResult(res) && res.quizId in s.quizzes
    ensures r.Saved? ==> r.row == res.(id := s.next.result)
    ensures r.Saved? ==> r.store == s.(results := s.results[r.row.id := r.row], next := s.next.(result := s.next.result + 1))
  {
    if ResultViolation(s, res).Some? then Rejected(ResultViolation(s, res).value)
    else
      var row := res.(id := s.next.result);
      Saved(s.(results := s.results[row.id := row], next := s.next.(result := s.next.result + 1)), row)
  }

  /** An accepted user insert keeps the store consistent. */
  lemma InsertUserPreservesConsistency(s: Store, u: User)
    requires Consistent(s) && InsertUser(s, u).Saved?
    ensures Consistent(InsertUser(s, u).store)
  {
    var r := InsertUser(s, u).store;
    assert KeysMatch(r);
    assert RowsValid(r);
    assert ReferencesResolve(r);
  }

  /** An accepted quiz insert uses an unused id and keeps the store consistent. */
  lemma InsertQuizPreservesConsistency(s: Store, q: Quiz)
    requires Consistent(s) && InsertQuiz(s, q).Saved?
    ensures InsertQuiz(s, q).row.id !in s.quizzes
    ensures Consistent(InsertQuiz(s, q).store)
  {
    var r := InsertQuiz(s, q).store;
    assert KeysMatch(r);
    assert RowsValid(r);
    assert ReferencesResolve(r);
    assert KeysBelowIdentity(r);
  }

  /** An accepted question insert uses an unused id and keeps the store consistent. */
  lemma InsertQuestionPreservesConsistency(s: Store, q: Question)
    requires Consistent(s) && InsertQuestion(s, q).Saved?
    ensures InsertQuestion(s, q).row.id !in s.questions
    ensures Consistent(InsertQuestion(s, q).store)
  {
    var r := InsertQuestion(s, q).store;
    assert KeysMatch(r);
    assert RowsValid(r);
    assert ReferencesResolve(r);
    assert KeysBelowIdentity(r);
  }

  /** An accepted answer insert uses an unused id and keeps the store consistent. */
  lemma InsertAnswerPreservesConsistency(s: Store, a: Answer)
    requires Consistent(s) && InsertAnswer(s, a).Saved?
    ensures InsertAnswer(s, a).row.id !in s.answers
    ensures Consistent(InsertAnswer(s, a).store)
  {
    var r := InsertAnswer(s, a).store;
    assert KeysMatch(r);
    assert RowsValid(r);
    assert ReferencesResolve(r);
    assert KeysBelowIdentity(r);
  }

  /** An accepted result insert uses an unused id and keeps the store consistent. */
  lemma InsertResultPreservesConsistency(s: Store, res: Result)
    requires Consistent(s) && InsertResult(s, res).Saved?
    ensures InsertResult(s, res).row.id !in s.results
    ensures Consistent(InsertResult(s, res).store)
  {
    var r := InsertResult(s, res).store;
    assert KeysMatch(r);
    assert RowsValid(r);
    assert ReferencesResolve(r);
    assert KeysBelowIdentity(r);
  }

  // ---------------------------------------------------------------------
  // Checked updates of an existing row (the key does not change)

  /** Rewrites the stored question `id` with `q`. */
  function UpdateQuestion(s: Store, id: int, q: Question): (r: Saved<Question>)
    requires id in s.questions
    ensures r.Saved? <==> ValidQuestion(q) && q.quizId in s.quizzes
    ensures r.Saved? ==> r.row == q && r.store == s.(questions := s.questions[id := q])
  {
    if QuestionViolation(s, q).Some? then Rejected(QuestionViolation(s, q).value)
    else Saved(s.(questions := s.questions[id := q]), q)
  }

  /** Rewrites the stored answer `id` with `a`. */
  function UpdateAnswer(s: Store, id: int, a: Answer): (r: Saved<Answer>)
    requires id in s.answers
    ensures r.Saved? <==> ValidAnswer(a) && a.questionId in s.questions
    ensures r.Saved? ==> r.row == a && r.store == s.(answers := s.answers[id := a])
  {
    if AnswerViolation(s, a).Some? then Rejected(AnswerViolation(s, a).value)
    else Saved(s.(answers := s.answers[id := a]), a)
  }

  /** Rewrites the stored result `id` with `res`. */
  function UpdateResult(s: Store, id: int, res: Result): (r: Saved<Result>)
    requires id in s.results
    ensures r.Saved? <==> ValidResult(res) && res.quizId in s.quizzes
    ensures r.Saved? ==> r.row == res && r.store == s.(results := s.results[id := res])
  {
    if ResultViolation(s, res).Some? then Rejected(ResultViolation(s, res).value)
    else Saved(s.(results := s.results[id := res]), res)
  }

  /** An accepted question update of a row under its own id keeps the store consistent. */
  lemma UpdateQuestionPreservesConsistency(s: Store, id: int, q: Question)
    requires Consistent(s) && id in s.questions && q.id == id && UpdateQuestion(s, id, q).Saved?
    ensures Consistent(UpdateQuestion(s, id, q).store)
  {
    var r := UpdateQuestion(s, id, q).store;
    assert KeysMatch(r);
    assert RowsValid(r);
    assert ReferencesResolve(r);
    assert KeysBelowIdentity(r);
  }

  /** An accepted answer update keeps the store consistent. */
  lemma UpdateAnswerPreservesConsistency(s: Store, id: int, a: Answer)
    requires Consistent(s) && id in s.answers && a.id == id && UpdateAnswer(s, id, a).Saved?
    ensures Consistent(UpdateAnswer(s, id, a).store)
  {
    var r := UpdateAnswer(s, id, a).store;
    assert KeysMatch(r);
    assert RowsValid(r);
    assert ReferencesResolve(r);
    assert KeysBelowIdentity(r);
  }

  /** An accepted result update keeps the store consistent. */
  lemma UpdateResultPreservesConsistency(s: Store, id: int, res: Result)
    requires Consistent(s) && id in s.results && res.id == id && UpdateResult(s, id, res).Saved?
    ensures Consistent(UpdateResult(s, id, res).store)
  {
    var r := UpdateResult(s, id, res).store;
    assert KeysMatch(r);
    assert RowsValid(r);
    assert ReferencesResolve(r);
    assert KeysBelowIdentity(r);
  }

  // ---------------------------------------------------------------------
  // Deletes, cascading along the foreign keys

  /** The answers of `m` whose question is not one of `questionIds`. */
  function AnswersNotOf(m: map<int, Answer>, questionIds: set<int>): (r: map<int, Answer>)
    ensures forall k :: k in r <==> k in m && m[k].questionId !in questionIds
    ensures forall k :: k in r ==> r[k] == m[k]
  {
    map k | k in m && m[k].questionId !in questionIds :: m[k]
  }

  /** The results of `m` whose quiz is not one of `quizIds`. */
  function ResultsNotOf(m: map<int, Result>, quizIds: set<int>): (r: map<int, Result>)
    ensures forall k :: k in r <==> k in m && m[k].quizId !in quizIds
    ensures forall k :: k in r ==> r[k] == m[k]
  {
    map k | k in m && m[k].quizId !in quizIds :: m[k]
  }

  /** Deletes an answer; nothing refers to answers. */
  function RemoveAnswer(s: Store, id: int): (r: Store)
    ensures r.answers.Keys == s.answers.Keys - {id}
    ensures forall k :: k in r.answers ==> r.answers[k] == s.answers[k]
    ensures r.(answers := s.answers) == s
  {
    s.(answers := s.answers - {id})
  }

  /** Deletes a result; nothing refers to results. */
  function RemoveResult(s: Store, id: int): (r: Store)
    ensures r.results.Keys == s.results.Keys - {id}
    ensures forall k :: k in r.results ==> r.results[k] == s.results[k]
    ensures r.(results := s.results) == s
  {
    s.(results := s.results - {id})
  }

  /** Deletes a question and, by the cascading foreign key of Answer_t, its answers. */
  function RemoveQuestion(s: Store, id: int): (r: Store)
    ensures r.questions.Keys == s.questions.Keys - {id}
    ensures forall k :: k in r.answers <==> k in s.answers && s.answers[k].questionId != id
    ensures forall k :: k in r.questions ==> r.questions[k] == s.questions[k]
    ensures forall k :: k in r.answers ==> r.answers[k] == s.answers[k]
    ensures r.(questions := s.questions, answers := s.answers) == s
  {
    s.(questions := s.questions - {id}, answers := AnswersNotOf(s.answers, {id}))
  }

  /** Deletes a quiz and, by the cascading foreign keys, its questions, their
      answers and its results. */
  function RemoveQuiz(s: Store, id: int): (r: Store)
    ensures r.quizzes.Keys == s.quizzes.Keys - {id}
    ensures forall k :: k in r.questions <==> k in s.questions && s.questions[k].quizId != id
    ensures forall k :: k in r.results <==> k in s.results && s.results[k].quizId != id
    ensures forall k :: k in r.answers <==>
      k in s.answers && s.answers[k].questionId !in QuestionsOf(s, {id})
    ensures forall k :: k in r.quizzes ==> r.quizzes[k] == s.quizzes[k]
    ensures forall k :: k in r.questions ==> r.questions[k] == s.questions[k]
    ensures forall k :: k in r.results ==> r.results[k] == s.results[k]
    ensures forall k :: k in r.answers ==> r.answers[k] == s.answers[k]
    ensures r.users == s.users && r.next == s.next
  {
    var qs := QuestionsOf(s, {id});
    s.(quizzes := s.quizzes - {id},
       questions := s.questions - qs,
       answers := AnswersNotOf(s.answers, qs),
       results := ResultsNotOf(s.results, {id}))
  }

  /** Deletes a user and, by the cascading foreign keys, the user's quizzes
      and everything they own. */
  function RemoveUser(s: Store, id: string): (r: Store)
    ensures r.users.Keys == s.users.Keys - {id}
    ensures forall k :: k in r.quizzes <==> k in s.quizzes && s.quizzes[k].userId != Some(id)
    ensures forall k :: k in r.questions <==> k in s.questions && s.questions[k].quizId !in QuizzesOf(s, id)
    ensures forall k :: k in r.results <==> k in s.results && s.results[k].quizId !in QuizzesOf(s, id)
    ensures forall k :: k in r.answers <==>
      k in s.answers && s.answers[k].questionId !in QuestionsOf(s, QuizzesOf(s, id))
    ensures forall k :: k in r.users ==> r.users[k] == s.users[k]
    ensures forall k :: k in r.quizzes ==> r.quizzes[k] == s.quizzes[k]
    ensures forall k :: k in r.questions ==> r.questions[k] == s.questions[k]
    ensures forall k :: k in r.results ==> r.results[k] == s.results[k]
    ensures forall k :: k in r.answers ==> r.answers[k] == s.answers[k]
    ensures r.next == s.next
  {
    var zs := QuizzesOf(s, id);
    var qs := QuestionsOf(s, zs);
    s.(users := s.users - {id},
       quizzes := s.quizzes - zs,
       questions := s.questions - qs,
       answers := AnswersNotOf(s.answers, qs),
       results := ResultsNotOf(s.results, zs))
  }

  /** Deleting an answer or a result keeps the store consistent. */
  lemma RemoveLeafPreservesConsistency(s: Store, answerId: int, resultId: int)
    requires Consistent(s)
    ensures Consistent(RemoveAnswer(s, answerId))
    ensures Consistent(RemoveResult(s, resultId))
  {
    var r1 := RemoveAnswer(s, answerId);
    assert KeysMatch(r1) && RowsValid(r1) && ReferencesResolve(r1) && KeysBelowIdentity(r1);
    var r2 := RemoveResult(s, resultId);
    assert KeysMatch(r2) && RowsValid(r2) && ReferencesResolve(r2) && KeysBelowIdentity(r2);
  }

  /** Deleting a question leaves no answer pointing at it. */
  lemma RemoveQuestionPreservesConsistency(s: Store, id: int)
    requires Consistent(s)
    ensures Consistent(RemoveQuestion(s, id))
  {
    var r := RemoveQuestion(s, id);
    assert KeysMatch(r);
    assert RowsValid(r);
    assert ReferencesResolve(r);
    assert KeysBelowIdentity(r);
  }

  /** Deleting a quiz leaves no question, result or answer pointing at a deleted row. */
  lemma RemoveQuizPreservesConsistency(s: Store, id: int)
    requires Consistent(s)
    ensures Consistent(RemoveQuiz(s, id))
  {
    var r := RemoveQuiz(s, id);
    assert KeysMatch(r);
    assert RowsValid(r);
    assert ReferencesResolve(r) by {
      forall k | k in r.answers ensures r.answers[k].questionId in r.questions {
        assert s.answers[k].questionId !in QuestionsOf(s, {id});
      }
    }
    assert KeysBelowIdentity(r);
  }

  /** Deleting a user leaves no quiz, question, result or answer pointing at a deleted row. */
  lemma RemoveUserPreservesConsistency(s: Store, id: string)
    requires Consistent(s)
    ensures Consistent(RemoveUser(s, id))
  {
    var r := RemoveUser(s, id);
    var zs := QuizzesOf(s, id);
    assert KeysMatch(r);
    assert RowsValid(r);
    assert ReferencesResolve(r) by {
      forall k | k in r.quizzes ensures r.quizzes[k].userId.value in r.users {
        assert k !in zs;
      }
      forall k | k in r.questions ensures r.questions[k].quizId in r.quizzes {
        assert s.questions[k].quizId !in zs;
      }
      forall k | k in r.results ensures r.results[k].quizId in r.quizzes {
        assert s.results[k].quizId !in zs;
      }
      forall k | k in r.answers ensures r.answers[k].questionId in r.questions {
        assert s.answers[k].questionId !in QuestionsOf(s, zs);
      }
    }
    assert KeysBelowIdentity(r);
  }

  /** Deleting a quiz removes, transitively, every row that depends on it:
      afterwards nothing refers to it or to one of its former questions. */
  lemma RemoveQuizLeavesNoDescendants(s: Store, id: int)
    requires Consistent(s)
    ensures var r := RemoveQuiz(s, id);
      && QuestionsOf(r, {id}) == {}
      && ResultsOf(r, id) == {}
      && forall q :: q in QuestionsOf(s, {id}) ==> AnswersOf(r, q) == {}
  {
  }

  // ---------------------------------------------------------------------
  // The cascade, one row at a time

  /** Deletes the questions `ids` one after the other, each with its answers. */
  function RemoveQuestions(s: Store, ids: seq<int>): Store
    decreases |ids|
  {
    if ids == [] then s else RemoveQuestions(RemoveQuestion(s, ids[0]), ids[1..])
  }

  /** Deleting questions one by one removes exactly those questions and the
      answers of any of them. */
  lemma {:induction false} RemoveQuestionsAtOnce(s: Store, ids: seq<int>)
    ensures RemoveQuestions(s, ids) ==
      s.(questions := s.questions - (set i | i in ids), answers := AnswersNotOf(s.answers, set i | i in ids))
    decreases |ids|
  {
    var all := set i | i in ids;
    if ids == [] {
      assert s.questions - all == s.questions;
      assert AnswersNotOf(s.answers, all) == s.answers;
    } else {
      var s1 := RemoveQuestion(s, ids[0]);
      var rest := set i | i in ids[1..];
      RemoveQuestionsAtOnce(s1, ids[1..]);
      assert all == {ids[0]} + rest;
      assert s1.questions - rest == s.questions - all;
      assert AnswersNotOf(s1.answers, rest) == AnswersNotOf(s.answers, all);
    }
  }

  /** Deleting a quiz as an ORM cascades it: each of its questions in turn
      (with their answers), then its results and the quiz row. */
  function RemoveQuizStepwise(s: Store, id: int): Store {
    IntLeIsTotalOrder();
    var s1 := RemoveQuestions(s, Ascending(QuestionsOf(s, {id}), IntLe));
    s1.(quizzes := s1.quizzes - {id}, results := ResultsNotOf(s1.results, {id}))
  }

  /** The database's one-statement cascade and the row-by-row cascade agree. */
  lemma RemoveQuizIsStepwise(s: Store, id: int)
    ensures RemoveQuiz(s, id) == RemoveQuizStepwise(s, id)
  {
    IntLeIsTotalOrder();
    var ids := Ascending(QuestionsOf(s, {id}), IntLe);
    RemoveQuestionsAtOnce(s, ids);
    assert (set i | i in ids) == QuestionsOf(s, {id});
  }

  /** Deletes the quizzes `ids` one after the other, each with its cascade. */
  function RemoveQuizzes(s: Store, ids: seq<int>): Store
    decreases |ids|
  {
    if ids == [] then s else RemoveQuizzes(RemoveQuiz(s, ids[0]), ids[1..])
  }

  /** The quizzes `zs` deleted in one statement, with everything that
      depends on them. */
  function WithoutQuizzes(s: Store, zs: set<int>): Store {
    var qs := QuestionsOf(s, zs);
    s.(quizzes := s.quizzes - zs,
       questions := s.questions - qs,
       answers := AnswersNotOf(s.answers, qs),
       results := ResultsNotOf(s.results, zs))
  }

  /** Deleting one quiz and then a set of quizzes is deleting both at once. */
  lemma WithoutQuizzesAfterRemoveQuiz(s: Store, z: int, rest: set<int>)
    ensures WithoutQuizzes(RemoveQuiz(s, z), rest) == WithoutQuizzes(s, {z} + rest)
  {
    var s1 := RemoveQuiz(s, z);
    var zs := {z} + rest;
    var q0 := QuestionsOf(s, {z});
    var q1 := QuestionsOf(s1, rest);
    var qs := QuestionsOf(s, zs);
    assert qs == q0 + q1 by {
      forall k ensures k in qs <==> k in q0 + q1 {
        if k in s.questions && s.questions[k].quizId in rest && s.questions[k].quizId != z {
          assert k in s1.questions;
        }
      }
    }
    var l := WithoutQuizzes(s1, rest);
    var r := WithoutQuizzes(s, zs);
    assert l.quizzes == r.quizzes;
    assert l.questions == r.questions;
    assert l.answers == r.answers by {
      assert forall k :: k in l.answers <==> k in r.answers;
    }
    assert l.results == r.results by {
      assert forall k :: k in l.results <==> k in r.results;
    }
  }

  /** Deleting quizzes one by one removes exactly those quizzes, their
      questions and results, and the answers of those questions. */
  lemma {:induction false} RemoveQuizzesAtOnce(s: Store, ids: seq<int>)
    ensures RemoveQuizzes(s, ids) == WithoutQuizzes(s, set i | i in ids)
    decreases |ids|
  {
    var zs := set i | i in ids;
    if ids == [] {
      var r := WithoutQuizzes(s, zs);
      assert r.quizzes == s.quizzes;
      assert r.questions == s.questions;
      assert r.answers == s.answers;
      assert r.results == s.results;
    } else {
      RemoveQuizzesAtOnce(RemoveQuiz(s, ids[0]), ids[1..]);
      WithoutQuizzesAfterRemoveQuiz(s, ids[0], set i | i in ids[1..]);
      assert zs == {ids[0]} + set i | i in ids[1..];
    }
  }

  /** Deleting a user as an ORM cascades it: each of the user's quizzes in
      turn (with everything they own), then the user row. */
  function RemoveUserStepwise(s: Store, id: string): Store {
    IntLeIsTotalOrder();
    var s1 := RemoveQuizzes(s, Ascending(QuizzesOf(s, id), IntLe));
    s1.(users := s1.users - {id})
  }

  /** The database's one-statement cascade and the quiz-by-quiz cascade agree. */
  lemma RemoveUserIsStepwise(s: Store, id: string)
    ensures RemoveUser(s, id) == RemoveUserStepwise(s, id)
  {
    IntLeIsTotalOrder();
    var ids := Ascending(QuizzesOf(s, id), IntLe);
    RemoveQuizzesAtOnce(s, ids);
    assert (set i | i in ids) == QuizzesOf(s, id);
  }
}
